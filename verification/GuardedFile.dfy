/** thread_safe_guard.c: pread and pwrite on one file, each between an acquire and a release of the
    reader-writer lock. A pwrite reaches the file in separate chunks, other threads running in between. */
module GuardedFile {
  import opened Basics
  import opened Blocks
  import opened FileBytes
  import L = RwLock

  /** The call a thread is in, and how far its file part has got. */
  datatype Job =
    | NoJob
    | ReadJob(off: Word, n: Word, done: bool)
    | WriteJob(off: Word, data: seq<Byte>, at: nat, stopped: bool)

  datatype Write = Write(off: Word, data: seq<Byte>)
  /** A finished pread: its result, and how many pwrites had finished when it looked at the file. */
  datatype Read = Read(off: Word, n: Word, result: Option<seq<Byte>>, after: nat)

  datatype State = State(lk: L.State, jobs: seq<Job>, file: Content, writes: seq<Write>, results: seq<Read>)

  datatype Step =
    | CallRead(t: nat, off: Word, n: Word)
    | CallWrite(t: nat, off: Word, data: seq<Byte>)
    | LockStep(t: nat)      // one step inside an rwlock function, or from the file part to the release
    | DoRead(t: nat)        // filepread: readi under the inode lock
    | DoChunk(t: nat)       // one round of the loop of filepwrite, unless bmap strays: a run ends there

  function Init(threads: nat, file: Content): State {
    State(L.Init(threads), seq(threads, _ => NoJob), file, [], [])
  }

  function ChunkLen(j: Job): nat
    requires j.WriteJob? && j.at < |j.data|
  {
    if |j.data| - j.at > CHUNK then CHUNK else |j.data| - j.at
  }

  /** What comes of writei of the next chunk. */
  function ChunkWritten(file: Content, j: Job): Outcome
    requires j.WriteJob? && j.at < |j.data|
  {
    Writei(file, j.off + j.at, j.data[j.at..j.at + ChunkLen(j)])
  }

  /** The file and the job after writei of the next chunk. */
  function AfterChunk(file: Content, j: Job): (Content, Job)
    requires j.WriteJob? && j.at < |j.data| && !ChunkWritten(file, j).Strayed?
  {
    var r := ChunkWritten(file, j);
    if r.Refused? then (file, j.(stopped := true)) else (r.content, j.(at := j.at + ChunkLen(j)))
  }

  predicate Threads(s: State, t: nat) {
    t < |s.jobs| == |s.lk.pcs|
  }

  /** The file part of the call is over. */
  predicate Finished(pc: L.PC, j: Job) {
    && (pc.Reading? ==> j.ReadJob? && j.done)
    && (pc.Writing? ==> j.WriteJob? && (j.stopped || j.at >= |j.data|))
  }

  predicate Enabled(s: State, c: Step) {
    Threads(s, c.t) &&
    var pc, j := s.lk.pcs[c.t], s.jobs[c.t];
    match c
    case CallRead(_, _, _) => pc.Out?
    case CallWrite(_, _, _) => pc.Out?
    case LockStep(_) => !pc.Out? && Finished(pc, j)
    case DoRead(_) => pc.Reading? && j.ReadJob? && !j.done
    case DoChunk(_) => pc.Writing? && j.WriteJob? && !Finished(pc, j) && !ChunkWritten(s.file, j).Strayed?
  }

  function Next(s: State, c: Step): State
    requires Enabled(s, c)
  {
    var pc, j := s.lk.pcs[c.t], s.jobs[c.t];
    match c
    case CallRead(t, off, n) =>
      s.(lk := L.Next(s.lk, t, L.StartRead), jobs := s.jobs[t := ReadJob(off, n, false)])
    case CallWrite(t, off, data) =>
      s.(lk := L.Next(s.lk, t, L.StartWrite), jobs := s.jobs[t := WriteJob(off, data, 0, false)])
    case LockStep(t) =>
      s.(lk := L.Next(s.lk, t, L.Go), writes := if pc.Writing? then s.writes + [Write(j.off, j.data)] else s.writes)
    case DoRead(t) =>
      s.(jobs := s.jobs[t := j.(done := true)],
         results := s.results + [Read(j.off, j.n, Readi(s.file, j.off, j.n), |s.writes|)])
    case DoChunk(t) =>
      var (file, after) := AfterChunk(s.file, j);
      s.(jobs := s.jobs[t := after], file := file)
  }

  ghost predicate Reaches(s: State, run: seq<Step>, e: State)
    decreases |run|
  {
    if run == [] then s == e else Enabled(s, run[0]) && Reaches(Next(s, run[0]), run[1..], e)
  }

  /** One pwrite done at once: filepwrite's net effect. */
  function Apply(c: Content, w: Write): (r: Content)
    requires |c| <= STRAYBYTES
    ensures |r| <= STRAYBYTES
  {
    if w.off > |c| || w.off + |w.data| > STRAYBYTES then c else Store(c, w.off, w.data)
  }

  function ApplyAll(c: Content, ws: seq<Write>): (r: Content)
    requires |c| <= STRAYBYTES
    ensures |r| <= STRAYBYTES
  {
    if ws == [] then c else Apply(ApplyAll(c, ws[..|ws| - 1]), ws[|ws| - 1])
  }

  // ----- the invariant -----

  /** A write in progress: the file is the last complete content plus the chunks already done. */
  ghost predicate Partial(base: Content, file: Content, j: Job) {
    && |base| <= STRAYBYTES
    && j.WriteJob? && j.at <= |j.data| && (j.at > 0 ==> j.off <= |base| && j.off + j.at <= STRAYBYTES)
    && (j.at < |j.data| ==> j.at % CHUNK == 0)
    && file == Put(base, j.off, j.data, j.at)
    && (j.stopped ==> j.off > |base|)
  }

  ghost predicate JobOk(s: State, c: Content, t: nat)
    requires Threads(s, t) && |c| <= STRAYBYTES
  {
    var pc, j := s.lk.pcs[t], s.jobs[t];
    && (pc.Reading? ==> j.ReadJob?)
    && (pc.WWait? ==> j.WriteJob? && j.at == 0 && !j.stopped)
    && (L.Entering(pc) ==> j.ReadJob? && !j.done)
    && (pc.Writing? ==> Partial(ApplyAll(c, s.writes), s.file, j))
  }

  ghost predicate ReadOk(s: State, c: Content, r: Read)
    requires |c| <= STRAYBYTES
  {
    r.after <= |s.writes| && r.result == Readi(ApplyAll(c, s.writes[..r.after]), r.off, r.n)
  }

  /** c is the content the run started from. */
  ghost predicate Inv(s: State, c: Content)
    requires |c| <= STRAYBYTES
  {
    && L.Inv(s.lk) && |s.jobs| == |s.lk.pcs|
    && (forall t :: 0 <= t < |s.jobs| ==> JobOk(s, c, t))
    && ((forall t :: 0 <= t < |s.jobs| ==> !s.lk.pcs[t].Writing?) ==> s.file == ApplyAll(c, s.writes))
    && (forall i :: 0 <= i < |s.results| ==> ReadOk(s, c, s.results[i]))
  }

  lemma InitInv(threads: nat, c: Content)
    requires |c| <= STRAYBYTES
    ensures Inv(Init(threads, c), c)
  {
    L.InitInv(threads);
  }

  /** Appending a write leaves earlier results justified. */
  lemma ReadsStay(s: State, e: State, c: Content)
    requires |c| <= STRAYBYTES && s.writes <= e.writes && s.results == e.results
    requires forall i :: 0 <= i < |s.results| ==> ReadOk(s, c, s.results[i])
    ensures forall i :: 0 <= i < |e.results| ==> ReadOk(e, c, e.results[i])
  {
    forall i | 0 <= i < |e.results|
      ensures ReadOk(e, c, e.results[i])
    {
      assert s.writes[..s.results[i].after] == e.writes[..s.results[i].after];
    }
  }

  lemma CallKeepsInv(s: State, c: Content, x: Step)
    requires |c| <= STRAYBYTES && Inv(s, c) && Enabled(s, x) && (x.CallRead? || x.CallWrite?)
    ensures Inv(Next(s, x), c)
  {
    var e := Next(s, x);
    L.StepKeepsInv(s.lk, x.t, if x.CallRead? then L.StartRead else L.StartWrite);
    hide L.Inv, ApplyAll, Partial;
    forall u | 0 <= u < |s.jobs|
      ensures JobOk(e, c, u) && (e.lk.pcs[u].Writing? <==> s.lk.pcs[u].Writing?)
    {
      assert JobOk(s, c, u);
    }
    ReadsStay(s, e, c);
  }

  /** The only writer is thread t. */
  lemma OnlyWriter(s: State, t: nat)
    requires L.Inv(s.lk) && t < |s.lk.pcs| && s.lk.pcs[t].Writing?
    ensures forall u :: 0 <= u < |s.lk.pcs| && u != t ==> !s.lk.pcs[u].Writing? && !s.lk.pcs[u].Reading?
  {
    forall u | 0 <= u < |s.lk.pcs| && u != t
      ensures !s.lk.pcs[u].Writing? && !s.lk.pcs[u].Reading?
    {
      L.Exclusion(s.lk, t, u);
    }
  }

  lemma NoWriterWhileReading(s: State, t: nat)
    requires L.Inv(s.lk) && t < |s.lk.pcs| && s.lk.pcs[t].Reading?
    ensures forall u :: 0 <= u < |s.lk.pcs| ==> !s.lk.pcs[u].Writing?
  {
    forall u | 0 <= u < |s.lk.pcs|
      ensures !s.lk.pcs[u].Writing?
    {
      if u != t {
        L.Exclusion(s.lk, u, t);
      }
    }
  }

  lemma DoReadKeepsInv(s: State, c: Content, t: nat)
    requires |c| <= STRAYBYTES && Inv(s, c) && Enabled(s, DoRead(t))
    ensures Inv(Next(s, DoRead(t)), c)
  {
    var e := Next(s, DoRead(t));
    NoWriterWhileReading(s, t);
    hide L.Inv, ApplyAll, Partial, Readi;
    forall u | 0 <= u < |s.jobs|
      ensures JobOk(e, c, u)
    {
      assert JobOk(s, c, u);
    }
    forall i | 0 <= i < |e.results|
      ensures ReadOk(e, c, e.results[i])
    {
      if i < |s.results| {
        assert ReadOk(s, c, s.results[i]);
      } else {
        assert s.writes[..|s.writes|] == s.writes;
      }
    }
  }

  /** A chunk takes a partial write one chunk further, or stops it for good. */
  lemma ChunkKeepsPartial(base: Content, file: Content, j: Job)
    requires Partial(base, file, j) && j.at < |j.data| && !j.stopped && !ChunkWritten(file, j).Strayed?
    ensures var (f, after) := AfterChunk(file, j); Partial(base, f, after)
  {
    hide Store, Put;
    if j.off <= |base| {
      PutMore(base, j.off, j.data, j.at, ChunkLen(j));
    } else {
      PutNothing(base, j.off, j.data);
    }
  }

  /** The writer in its section changed the file and its own progress, nothing else. */
  lemma WriterMoved(s: State, e: State, c: Content, t: nat)
    requires |c| <= STRAYBYTES && Inv(s, c) && Threads(s, t) && s.lk.pcs[t].Writing?
    requires e.lk == s.lk && e.writes == s.writes && e.results == s.results
    requires |e.jobs| == |s.jobs| && e.jobs == s.jobs[t := e.jobs[t]]
    requires Partial(ApplyAll(c, s.writes), e.file, e.jobs[t])
    ensures Inv(e, c)
  {
    OnlyWriter(s, t);
    hide L.Inv, L.Entering, ApplyAll, Partial, Readi;
    forall u | 0 <= u < |s.jobs|
      ensures JobOk(e, c, u)
    {
      assert JobOk(s, c, u);
    }
    ReadsStay(s, e, c);
  }

  lemma DoChunkKeepsInv(s: State, c: Content, t: nat)
    requires |c| <= STRAYBYTES && Inv(s, c) && Enabled(s, DoChunk(t))
    ensures Inv(Next(s, DoChunk(t)), c)
  {
    assert JobOk(s, c, t);
    hide L.Inv, L.Entering, ApplyAll, Partial, AfterChunk, Readi;
    ChunkKeepsPartial(ApplyAll(c, s.writes), s.file, s.jobs[t]);
    WriterMoved(s, Next(s, DoChunk(t)), c, t);
  }

  /** A finished write is a whole pwrite. */
  lemma FinishedIsApplied(base: Content, file: Content, j: Job)
    requires Partial(base, file, j) && (j.stopped || j.at >= |j.data|)
    ensures file == Apply(base, Write(j.off, j.data))
  {
    hide Store;
    assert j.data[..|j.data|] == j.data;
    if j.data == [] && j.off <= |base| {
      StoreNothing(base, j.off);
    }
  }

  /** Leaving the section records the write. */
  lemma LeaveWritingKeepsInv(s: State, c: Content, t: nat)
    requires |c| <= STRAYBYTES && Inv(s, c) && Enabled(s, LockStep(t)) && s.lk.pcs[t].Writing?
    ensures Inv(Next(s, LockStep(t)), c)
  {
    var e := Next(s, LockStep(t));
    L.StepKeepsInv(s.lk, t, L.Go);
    L.Flow(s.lk, t);
    hide L.Next;
    OnlyWriter(s, t);
    assert JobOk(s, c, t);
    FinishedIsApplied(ApplyAll(c, s.writes), s.file, s.jobs[t]);
    assert e.writes[..|e.writes| - 1] == s.writes;
    assert ApplyAll(c, e.writes) == e.file;
    hide L.Inv, ApplyAll, Partial, Apply;
    forall u | 0 <= u < |s.jobs|
      ensures JobOk(e, c, u)
    {
      assert JobOk(s, c, u);
    }
    ReadsStay(s, e, c);
  }

  /** A write that has done no chunk yet. */
  lemma NothingYet(base: Content, j: Job)
    requires |base| <= STRAYBYTES && j.WriteJob? && j.at == 0 && !j.stopped
    ensures Partial(base, base, j)
  {
    PutNothing(base, j.off, j.data);
  }

  lemma LockStepKeepsInv(s: State, c: Content, t: nat)
    requires |c| <= STRAYBYTES && Inv(s, c) && Enabled(s, LockStep(t)) && !s.lk.pcs[t].Writing?
    ensures Inv(Next(s, LockStep(t)), c)
  {
    var e := Next(s, LockStep(t));
    L.StepKeepsInv(s.lk, t, L.Go);
    L.Flow(s.lk, t);
    hide L.Next;
    assert JobOk(s, c, t);
    assert forall u :: 0 <= u < |s.jobs| && u != t ==> e.lk.pcs[u] == s.lk.pcs[u];
    if e.lk.pcs[t].Writing? {
      OnlyWriter(e, t);
      assert s.file == ApplyAll(c, s.writes);
      NothingYet(s.file, s.jobs[t]);
    }
    hide L.Inv, ApplyAll, Partial;
    forall u | 0 <= u < |s.jobs|
      ensures JobOk(e, c, u)
    {
      assert JobOk(s, c, u);
    }
    ReadsStay(s, e, c);
  }

  lemma StepKeepsInv(s: State, c: Content, x: Step)
    requires |c| <= STRAYBYTES && Inv(s, c) && Enabled(s, x)
    ensures Inv(Next(s, x), c)
  {
    match x {
      case CallRead(_, _, _) => CallKeepsInv(s, c, x);
      case CallWrite(_, _, _) => CallKeepsInv(s, c, x);
      case LockStep(t) =>
        if s.lk.pcs[t].Writing? {
          LeaveWritingKeepsInv(s, c, t);
        } else {
          LockStepKeepsInv(s, c, t);
        }
      case DoRead(t) => DoReadKeepsInv(s, c, t);
      case DoChunk(t) => DoChunkKeepsInv(s, c, t);
    }
  }

  lemma {:induction false} ReachableInv(s: State, c: Content, run: seq<Step>, e: State)
    requires |c| <= STRAYBYTES && Inv(s, c) && Reaches(s, run, e)
    ensures Inv(e, c)
    decreases |run|
  {
    if run != [] {
      StepKeepsInv(s, c, run[0]);
      ReachableInv(Next(s, run[0]), c, run[1..], e);
    }
  }

  /** Guarded atomicity. In every run of any number of threads, every pread returns what readi returns
      on the content left by some number of complete pwrites, in the order in which they finished;
      never anything in between. With no pwrite in its section, the file is that content. */
  lemma GuardedReadsAreAtomic(threads: nat, c: Content, run: seq<Step>, e: State)
    requires |c| <= STRAYBYTES && Reaches(Init(threads, c), run, e)
    ensures forall i :: 0 <= i < |e.results| ==>
              var r := e.results[i];
              r.after <= |e.writes| && r.result == Readi(ApplyAll(c, e.writes[..r.after]), r.off, r.n)
    ensures (forall t :: 0 <= t < |e.lk.pcs| ==> !e.lk.pcs[t].Writing?) ==> e.file == ApplyAll(c, e.writes)
  {
    InitInv(threads, c);
    ReachableInv(Init(threads, c), c, run, e);
    forall i | 0 <= i < |e.results|
      ensures ReadOk(e, c, e.results[i])
    {
    }
  }

  // ----- plain writes -----

  /** The intended effect of a pwrite: overwrite and extend. */
  function Plain(c: Content, w: Write): Content {
    if w.off > |c| then c else WriteAt(c, w.off, w.data)
  }

  function PlainAll(c: Content, ws: seq<Write>): Content {
    if ws == [] then c else Plain(PlainAll(c, ws[..|ws| - 1]), ws[|ws| - 1])
  }

  /** While the file and every write stay within GOODBYTES, each pwrite overwrites and extends as intended. */
  lemma {:induction false} ShortWritesArePlain(c: Content, ws: seq<Write>)
    requires |c| <= GOODBYTES && forall i :: 0 <= i < |ws| ==> ws[i].off + |ws[i].data| <= GOODBYTES
    ensures ApplyAll(c, ws) == PlainAll(c, ws) && |PlainAll(c, ws)| <= GOODBYTES
    decreases |ws|
  {
    hide Store, WriteAt;
    if ws != [] {
      var before, w := PlainAll(c, ws[..|ws| - 1]), ws[|ws| - 1];
      ShortWritesArePlain(c, ws[..|ws| - 1]);
      if w.off <= |before| {
        ShortStoreIsWrite(before, w.off, w.data);
      }
    }
  }

  /** Guarded atomicity in a file within GOODBYTES: every pread returns a slice of the content left by some number of
      complete pwrites, each of them a plain overwrite or extension. */
  lemma GuardedReadsArePlain(threads: nat, c: Content, run: seq<Step>, e: State, i: nat)
    requires |c| <= GOODBYTES && Reaches(Init(threads, c), run, e) && i < |e.results|
    requires forall k :: 0 <= k < |e.writes| ==> e.writes[k].off + |e.writes[k].data| <= GOODBYTES
    ensures var r := e.results[i];
            r.after <= |e.writes| && r.result == Readi(PlainAll(c, e.writes[..r.after]), r.off, r.n)
  {
    hide Reaches, ApplyAll, PlainAll, Readi;
    GuardedReadsAreAtomic(threads, c, run, e);
    ShortWritesArePlain(c, e.writes[..e.results[i].after]);
  }

  // ----- the order of the calls -----

  /** The arguments of the call that each thread made last. */
  datatype Calls = Calls(pwrites: map<nat, Write>, preads: map<nat, (Word, Word)>)

  function Made(calls: Calls, x: Step): Calls {
    match x
    case CallWrite(t, off, data) => calls.(pwrites := calls.pwrites[t := Write(off, data)])
    case CallRead(t, off, n) => calls.(preads := calls.preads[t := (off, n)])
    case _ => calls
  }

  /** Step x takes a thread with a finished pwrite out of its section. */
  predicate Leaves(s: State, x: Step) {
    x.LockStep? && Threads(s, x.t) && s.lk.pcs[x.t].Writing?
  }

  /** The pwrite calls of the run in the order in which their threads left the section. */
  ghost function WritesLeft(s: State, run: seq<Step>, calls: Calls): seq<Write>
    decreases |run|
  {
    if run == [] || !Enabled(s, run[0]) then []
    else
      (if Leaves(s, run[0]) && run[0].t in calls.pwrites then [calls.pwrites[run[0].t]] else [])
      + WritesLeft(Next(s, run[0]), run[1..], Made(calls, run[0]))
  }

  /** A pread call, with the number of pwrites that had left when it looked at the file. */
  datatype Look = Look(off: Word, n: Word, after: nat)

  ghost function Looks(s: State, run: seq<Step>, calls: Calls, left: nat): seq<Look>
    decreases |run|
  {
    if run == [] || !Enabled(s, run[0]) then []
    else
      var x := run[0];
      (if x.DoRead? && x.t in calls.preads then [Look(calls.preads[x.t].0, calls.preads[x.t].1, left)] else [])
      + Looks(Next(s, x), run[1..], Made(calls, x), left + if Leaves(s, x) then 1 else 0)
  }

  function LookOf(r: Read): Look {
    Look(r.off, r.n, r.after)
  }

  function LooksOf(rs: seq<Read>): (ls: seq<Look>)
    ensures |ls| == |rs| && forall i :: 0 <= i < |rs| ==> ls[i] == LookOf(rs[i])
  {
    seq(|rs|, i requires 0 <= i < |rs| => LookOf(rs[i]))
  }

  /** A thread inside a call has the job of its last call. */
  ghost predicate Tracks(s: State, calls: Calls, t: nat)
    requires Threads(s, t)
  {
    var pc, j := s.lk.pcs[t], s.jobs[t];
    && (pc.WWait? || pc.Writing? ==> j.WriteJob? && t in calls.pwrites && calls.pwrites[t] == Write(j.off, j.data))
    && (L.Entering(pc) || pc.Reading? ==> j.ReadJob? && t in calls.preads && calls.preads[t] == (j.off, j.n))
  }

  ghost predicate AllTrack(s: State, calls: Calls) {
    |s.jobs| == |s.lk.pcs| && forall t :: 0 <= t < |s.jobs| ==> Tracks(s, calls, t)
  }

  lemma StepTracks(s: State, x: Step, calls: Calls)
    requires AllTrack(s, calls) && Enabled(s, x)
    ensures AllTrack(Next(s, x), Made(calls, x))
    ensures Leaves(s, x) ==> x.t in calls.pwrites && Next(s, x).writes == s.writes + [calls.pwrites[x.t]]
    ensures !Leaves(s, x) ==> Next(s, x).writes == s.writes
    ensures x.DoRead? ==> x.t in calls.preads && |Next(s, x).results| == |s.results| + 1
                          && Next(s, x).results[..|s.results|] == s.results
                          && LookOf(Next(s, x).results[|s.results|]) ==
                               Look(calls.preads[x.t].0, calls.preads[x.t].1, |s.writes|)
    ensures !x.DoRead? ==> Next(s, x).results == s.results
  {
    hide Readi, ChunkWritten, L.Next;
    var e := Next(s, x);
    assert Tracks(s, calls, x.t);
    PcFlow(s, x);
    forall u | 0 <= u < |e.jobs|
      ensures Tracks(e, Made(calls, x), u)
    {
      assert Tracks(s, calls, u);
    }
  }

  lemma PcFlow(s: State, x: Step)
    requires Enabled(s, x) && |s.jobs| == |s.lk.pcs|
    ensures var e := Next(s, x);
            && |e.lk.pcs| == |s.lk.pcs| == |e.jobs|
            && (forall u :: 0 <= u < |s.lk.pcs| && u != x.t ==> e.lk.pcs[u] == s.lk.pcs[u] && e.jobs[u] == s.jobs[u])
            && (x.DoRead? || x.DoChunk? ==> e.lk == s.lk)
            && (x.CallRead? ==> e.lk.pcs[x.t].RWaitLock?) && (x.CallWrite? ==> e.lk.pcs[x.t].WWait?)
            && (x.LockStep? ==>
                  && (e.lk.pcs[x.t].WWait? || e.lk.pcs[x.t].Writing? ==> s.lk.pcs[x.t].WWait?)
                  && (L.Entering(e.lk.pcs[x.t]) || e.lk.pcs[x.t].Reading? ==> L.Entering(s.lk.pcs[x.t])))
  {
    hide Readi, ChunkWritten;
    if x.LockStep? {
      L.Flow(s.lk, x.t);
    }
  }

  lemma {:induction false} RunTracks(s: State, run: seq<Step>, e: State, calls: Calls)
    requires AllTrack(s, calls) && Reaches(s, run, e)
    ensures e.writes == s.writes + WritesLeft(s, run, calls)
    ensures LooksOf(e.results) == LooksOf(s.results) + Looks(s, run, calls, |s.writes|)
    decreases |run|
  {
    hide AllTrack, Next, Enabled, Leaves;
    if run != [] {
      var x, s1 := run[0], Next(s, run[0]);
      StepTracks(s, x, calls);
      RunTracks(s1, run[1..], e, Made(calls, x));
      if x.DoRead? {
        assert LooksOf(s1.results) == LooksOf(s.results) + [LookOf(s1.results[|s.results|])];
      }
    }
  }

  /** Nothing is lost and nothing invented: the writes that preads see are the pwrite calls, with the arguments they were
      called with, in the order in which they left their sections, and each pread sees those that had left when it
      looked, which is inside its own call. */
  lemma CallsTakeEffect(threads: nat, c: Content, run: seq<Step>, e: State)
    requires |c| <= STRAYBYTES && Reaches(Init(threads, c), run, e)
    ensures e.writes == WritesLeft(Init(threads, c), run, Calls(map[], map[]))
    ensures LooksOf(e.results) == Looks(Init(threads, c), run, Calls(map[], map[]), 0)
  {
    RunTracks(Init(threads, c), run, e, Calls(map[], map[]));
    assert LooksOf([]) == [];
  }
}
