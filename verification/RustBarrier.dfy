/** The Rust batch client: the barrier is sized for every client, but only clients with rows
    are spawned, a client that fails returns without arriving, and `main` awaits the handles
    in rank order. */
module RustBarrier {
  import opened Basics
  import opened RowPartition
  import opened Coordination

  /** Clients with `local[c]` rows each; `waits` is 5 for an upload and 4 for a query. */
  datatype Job = Job(local: seq<nat>, waits: nat)
  {
    ghost predicate Valid()
    {
      local != [] && waits > 0
    }

    predicate Busy(c: nat)
    {
      c < |local| && local[c] > 0
    }
  }

  ghost predicate AllBusy(job: Job)
  {
    forall c: nat :: c < |job.local| ==> job.Busy(c)
  }

  ghost predicate NobodyBusy(job: Job)
  {
    forall c: nat :: c < |job.local| ==> !job.Busy(c)
  }

  /** `Work(k)` runs the code before the k-th wait, or after the last one. */
  datatype Task =
    | Absent
    | Work(k: nat)
    | Waiting(k: nat, g: nat)
    | Failed(k: nat)
    | Finished

  datatype State = State(task: seq<Task>, barrier: BarrierState, file: seq<Line>)

  /** `before` is what the timing file held. */
  function Init(job: Job, before: seq<Line>): State
  {
    State(seq(|job.local|, c requires c >= 0 => if job.Busy(c) then Work(1) else Absent),
          BarrierState(|job.local|, |job.local|, 0), before)
  }

  /** Arriving at wait `k`; rank 0 truncates the file to its header before the last one. */
  function Arrived(job: Job, s: State, c: nat): State
    requires c < |s.task| && s.task[c].Work? && s.barrier.count > 0
  {
    var k := s.task[c].k;
    State(s.task[c := if s.barrier.LastArrival() then Work(k + 1) else Waiting(k, s.barrier.gen)],
          s.barrier.Arrive(),
          if k == job.waits && c == 0 then [Header] else s.file)
  }

  function Advance(job: Job, s: State, c: nat): State
    requires c < |s.task| && s.barrier.count > 0
  {
    match s.task[c]
    case Work(k) =>
      if k <= job.waits then Arrived(job, s, c)
      else s.(task := s.task[c := Finished], file := s.file + [Record(c)])
    case Waiting(k, _) => s.(task := s.task[c := Work(k + 1)])
    case _ => s
  }

  function Fail(s: State, c: nat): State
    requires c < |s.task| && s.task[c].Work?
  {
    s.(task := s.task[c := Failed(s.task[c].k)])
  }

  predicate Enabled(s: State, c: nat)
    requires c < |s.task|
  {
    s.task[c].Work? || (s.task[c].Waiting? && s.barrier.MayLeave(s.task[c].g))
  }

  ghost predicate MoveOf(job: Job, s: State, t: State, c: nat)
    requires c < |s.task| && s.barrier.count > 0
  {
    Enabled(s, c) && (t == Advance(job, s, c) || (s.task[c].Work? && t == Fail(s, c)))
  }

  ghost predicate Step(job: Job, s: State, t: State)
  {
    s.barrier.count > 0 && exists c :: 0 <= c < |s.task| && MoveOf(job, s, t, c)
  }

  ghost predicate Run(job: Job, before: seq<Line>, run: seq<State>)
  {
    && |run| > 0
    && run[0] == Init(job, before)
    && forall i, j :: 0 <= i && j == i + 1 < |run| ==> Step(job, run[i], run[j])
  }

  /** `main` joins the handles in rank order and returns at the first error. */
  ghost predicate MainReturns(s: State)
  {
    exists j :: 0 <= j <= |s.task| && ReturnsAt(s, j)
  }

  ghost predicate ReturnsAt(s: State, j: nat)
    requires j <= |s.task|
  {
    && (forall i :: 0 <= i < j ==> s.task[i] == Absent || s.task[i] == Finished)
    && (j < |s.task| ==> s.task[j].Failed?)
  }

  // --------------------------------------------------------------- invariant

  ghost function Waiters(s: State): set<nat>
  {
    set c: nat | c < |s.task| && s.task[c].Waiting? && s.task[c].g == s.barrier.gen
  }

  ghost predicate LegalTask(job: Job, gen: nat, p: Task)
  {
    match p
    case Absent => gen == 0
    case Work(k) => 1 <= k <= job.waits + 1 && k - 1 == gen
    case Waiting(k, g) => 1 <= k <= job.waits && g == k - 1 && (gen == g || gen == k)
    case Failed(k) => 1 <= k <= job.waits + 1 && k - 1 == gen
    case Finished => gen == job.waits
  }

  /** A client that was never spawned, or has failed, keeps the generation where it is. */
  ghost predicate Inv(job: Job, s: State)
  {
    && |s.task| == |job.local| == s.barrier.n
    && s.barrier.Valid()
    && s.barrier.count + |Waiters(s)| == s.barrier.n
    && (forall c :: 0 <= c < |s.task| ==>
        LegalTask(job, s.barrier.gen, s.task[c]) && (s.task[c] == Absent <==> !job.Busy(c)))
  }

  /** Has rank 0 come to its last wait, before which it writes the header? */
  ghost predicate Begun(job: Job, s: State)
  {
    s.barrier.gen == job.waits || (|s.task| > 0 && s.task[0] == Waiting(job.waits, s.barrier.gen))
  }

  /** The timing file is left alone until rank 0 comes to its last wait, and is from then on the
      header and the finished clients. */
  ghost predicate FileInv(job: Job, before: seq<Line>, s: State)
  {
    if !Begun(job, s) then s.file == before
    else
      && s.file != [] && s.file[0] == Header
      && (forall i, j :: 0 <= i < j < |s.file| ==> s.file[i] != s.file[j])
      && (forall l :: l in s.file ==> l == Header || (l.Record? && l.rank < |s.task| && s.task[l.rank] == Finished))
      && (forall c :: 0 <= c < |s.task| && s.task[c] == Finished ==> Record(c) in s.file)
  }

  lemma InitInv(job: Job, before: seq<Line>)
    requires job.Valid()
    ensures Inv(job, Init(job, before))
  {
    hide Job.Busy;
    assert Waiters(Init(job, before)) == {};
  }

  lemma LastArrivalKeepsInv(job: Job, s: State, c: nat)
    requires job.Valid() && Inv(job, s) && c < |s.task| && s.task[c].Work? && s.task[c].k <= job.waits
    requires s.barrier.LastArrival()
    ensures Inv(job, Arrived(job, s, c))
  {
    hide Job.Busy;
    var t := Arrived(job, s, c);
    AllButOne(Waiters(s), |s.task|, c);
    assert LegalTask(job, s.barrier.gen, s.task[c]);
    forall d: nat | d < |t.task|
      ensures !t.task[d].Waiting? || t.task[d].g != t.barrier.gen
      ensures LegalTask(job, t.barrier.gen, t.task[d]) && (t.task[d] == Absent <==> !job.Busy(d))
    {
      if d != c {
        assert d in Waiters(s);
        assert t.task[d] == s.task[d] && s.task[d].g == s.barrier.gen;
      }
    }
    assert Waiters(t) == {};
  }

  lemma ArrivalKeepsInv(job: Job, s: State, c: nat)
    requires job.Valid() && Inv(job, s) && c < |s.task| && s.task[c].Work? && s.task[c].k <= job.waits
    ensures Inv(job, Arrived(job, s, c))
  {
    hide Job.Busy, Inv, Arrived;
    if s.barrier.LastArrival() {
      LastArrivalKeepsInv(job, s, c);
    } else {
      EarlyArrivalKeepsInv(job, s, c);
    }
  }

  lemma EarlyArrivalKeepsInv(job: Job, s: State, c: nat)
    requires job.Valid() && Inv(job, s) && c < |s.task| && s.task[c].Work? && s.task[c].k <= job.waits
    requires !s.barrier.LastArrival()
    ensures Inv(job, Arrived(job, s, c))
  {
    hide Job.Busy;
    var t := Arrived(job, s, c);
    assert LegalTask(job, s.barrier.gen, s.task[c]) && t.task == s.task[c := t.task[c]];
    assert LegalTask(job, t.barrier.gen, t.task[c]);
    hide Arrived, LegalTask;
    assert Waiters(t) == Waiters(s) + {c};
  }

  lemma StepKeepsInv(job: Job, s: State, t: State)
    requires job.Valid() && Inv(job, s) && Step(job, s, t)
    ensures Inv(job, t)
  {
    hide Job.Busy, Arrived;
    var c :| 0 <= c < |s.task| && MoveOf(job, s, t, c);
    assert LegalTask(job, s.barrier.gen, s.task[c]);
    if s.task[c].Work? && s.task[c].k <= job.waits && t == Advance(job, s, c) {
      ArrivalKeepsInv(job, s, c);
    } else {
      assert Waiters(t) == Waiters(s);
    }
  }

  lemma {:induction false} RunKeepsInv(job: Job, before: seq<Line>, run: seq<State>, i: nat)
    requires job.Valid() && Run(job, before, run) && i < |run|
    ensures Inv(job, run[i])
  {
    hide Inv, Step;
    if i == 0 {
      InitInv(job, before);
    } else {
      RunKeepsInv(job, before, run, i - 1);
      StepKeepsInv(job, run[i - 1], run[i]);
    }
  }

  // ------------------------------------------------------------ termination

  /** A bound on the steps a client still takes: two for every wait before it, and one to
      finish. */
  function Remaining(job: Job, p: Task): nat
  {
    match p
    case Work(k) => if k <= job.waits then 2 * (job.waits + 1 - k) + 1 else 1
    case Waiting(k, _) => if k <= job.waits then 2 * (job.waits + 1 - k) else 0
    case _ => 0
  }

  function Costs(job: Job, tasks: seq<Task>): seq<nat>
  {
    seq(|tasks|, c requires 0 <= c < |tasks| => Remaining(job, tasks[c]))
  }

  lemma StepSpends(job: Job, s: State, t: State)
    requires job.Valid() && Inv(job, s) && Step(job, s, t)
    ensures Sum(Costs(job, t.task)) < Sum(Costs(job, s.task))
  {
    hide Job.Busy, Sum;
    var c :| 0 <= c < |s.task| && MoveOf(job, s, t, c);
    assert LegalTask(job, s.barrier.gen, s.task[c]);
    assert t.task == s.task[c := t.task[c]];
    var left := Remaining(job, t.task[c]);
    assert Costs(job, t.task) == Costs(job, s.task)[c := left];
    SumUpdate(Costs(job, s.task), c, left);
  }

  lemma {:induction false} RunSpends(job: Job, before: seq<Line>, run: seq<State>, i: nat)
    requires job.Valid() && Run(job, before, run) && i < |run|
    ensures Sum(Costs(job, run[i].task)) + i <= Sum(Costs(job, run[0].task))
  {
    hide Step, Sum, Costs, Inv;
    if i > 0 {
      RunSpends(job, before, run, i - 1);
      RunKeepsInv(job, before, run, i - 1);
      StepSpends(job, run[i - 1], run[i]);
    }
  }

  lemma {:induction false} SumBound(xs: seq<nat>, most: nat)
    requires forall i :: 0 <= i < |xs| ==> xs[i] <= most
    ensures Sum(xs) <= most * |xs|
  {
    if xs != [] {
      var n := |xs| - 1;
      SumBound(xs[..n], most);
      assert most * |xs| == most * n + most;
    }
  }

  /** No run is longer than two states a wait and one more for each client, and the first:
      every run stops. */
  lemma RunsAreBounded(job: Job, before: seq<Line>, run: seq<State>)
    requires job.Valid() && Run(job, before, run)
    ensures |run| <= (2 * job.waits + 1) * |job.local| + 1
  {
    RunSpends(job, before, run, |run| - 1);
    SumBound(Costs(job, run[0].task), 2 * job.waits + 1);
  }

  /** And where a run cannot go on, nobody can move. */
  lemma StoppedIff(job: Job, before: seq<Line>, run: seq<State>)
    requires job.Valid() && Run(job, before, run)
    ensures
      var s := run[|run| - 1];
      Stopped(s) <==> !exists t :: Step(job, s, t)
  {
    var s := run[|run| - 1];
    RunKeepsInv(job, before, run, |run| - 1);
    hide Job.Busy, LegalTask, Waiters, Advance;
    if !Stopped(s) {
      var c :| 0 <= c < |s.task| && Enabled(s, c);
      assert MoveOf(job, s, Advance(job, s, c), c);
      assert Step(job, s, Advance(job, s, c));
    }
  }

  // ---------------------------------------------------------- who gets where

  /** A client without rows keeps everybody else at the first wait: no client of any run ever
      passes it. */
  lemma NobodyPasses(job: Job, before: seq<Line>, run: seq<State>, i: nat, c: nat)
    requires job.Valid() && Run(job, before, run) && i < |run| && c < |job.local| && !AllBusy(job)
    ensures |run[i].task| == |job.local|
    ensures run[i].task[c] in {Absent, Work(1), Waiting(1, 0), Failed(1)}
  {
    RunKeepsInv(job, before, run, i);
    var d: nat :| d < |job.local| && !job.Busy(d);
    hide Job.Busy;
    IdleHoldsAll(job, run[i], d, c);
  }

  lemma IdleHoldsAll(job: Job, s: State, d: nat, c: nat)
    requires job.Valid() && Inv(job, s) && d < |job.local| && c < |job.local| && !job.Busy(d)
    ensures s.task[c] in {Absent, Work(1), Waiting(1, 0), Failed(1)}
  {
    hide Job.Busy;
    assert s.task[d] == Absent && LegalTask(job, s.barrier.gen, s.task[d]);
    assert LegalTask(job, s.barrier.gen, s.task[c]);
    if s.barrier.gen == 0 && s.task[c] == Finished {
      assert false;
    }
  }

  ghost predicate Stopped(s: State)
  {
    forall c :: 0 <= c < |s.task| ==> !Enabled(s, c)
  }

  ghost predicate NoFailure(s: State)
  {
    forall c :: 0 <= c < |s.task| ==> !s.task[c].Failed?
  }

  ghost predicate AllFinished(s: State)
  {
    forall c :: 0 <= c < |s.task| ==> s.task[c] == Finished
  }

  /** In a state where nothing can move, every client is absent, done, failed or waiting in
      the current generation. */
  lemma StoppedTask(job: Job, s: State, c: nat)
    requires job.Valid() && Inv(job, s) && Stopped(s) && c < |s.task|
    ensures s.task[c] == Absent || s.task[c].Failed? || c in Waiters(s) || s.task[c] == Finished
    ensures s.task[c] == Finished ==> s.barrier.gen == job.waits
    ensures c in Waiters(s) ==> s.barrier.gen < job.waits
    ensures s.task[c] == Absent <==> !job.Busy(c)
  {
    hide Job.Busy;
    assert LegalTask(job, s.barrier.gen, s.task[c]);
    assert !Enabled(s, c);
  }

  /** Where a run without failures stops: everybody is through, exactly when all clients
      have rows or none has. */
  lemma StopsDoneIff(job: Job, before: seq<Line>, run: seq<State>)
    requires job.Valid() && Run(job, before, run) && Stopped(run[|run| - 1])
    requires NoFailure(run[|run| - 1])
    ensures
      var s := run[|run| - 1];
      && |s.task| == |job.local|
      && ((forall c :: 0 <= c < |s.task| && job.Busy(c) ==> s.task[c] == Finished)
          <==> AllBusy(job) || NobodyBusy(job))
  {
    hide Job.Busy;
    var s := run[|run| - 1];
    RunKeepsInv(job, before, run, |run| - 1);
    if AllBusy(job) {
      AllBusyStops(job, s);
    } else if !NobodyBusy(job) {
      var c: nat :| c < |job.local| && job.Busy(c);
      NobodyPasses(job, before, run, |run| - 1, c);
    }
  }

  /** For the rows and clients of a layout: at least as many rows as clients, or none. */
  lemma LayoutStopsDoneIff(l: Layout, rows: nat, waits: nat, before: seq<Line>, run: seq<State>)
    requires l.Valid() && waits > 0 && Run(Job(RowCounts(rows, l), waits), before, run)
    requires Stopped(run[|run| - 1]) && NoFailure(run[|run| - 1])
    ensures
      var s := run[|run| - 1];
      && |s.task| == l.total
      && ((forall c :: 0 <= c < l.total && HasRows(rows, c, l) ==> s.task[c] == Finished)
          <==> rows == 0 || rows >= l.total)
  {
    LayoutJob(l, rows, waits);
    hide *;
    StopsDoneIff(Job(RowCounts(rows, l), waits), before, run);
  }

  lemma LayoutJob(l: Layout, rows: nat, waits: nat)
    requires l.Valid() && waits > 0
    ensures
      var job := Job(RowCounts(rows, l), waits);
      && job.Valid() && |job.local| == l.total
      && (forall c :: 0 <= c < l.total ==> (job.Busy(c) <==> HasRows(rows, c, l)))
      && (AllBusy(job) <==> rows >= l.total)
      && (NobodyBusy(job) <==> rows == 0)
  {
    var counts := RowCounts(rows, l);
    RowCountFacts(rows, l);
    LayoutHasClients(l);
    forall c: nat | c < l.total
      ensures counts[c] > 0 <==> HasRows(rows, c, l)
    {
      RowCountMeans(rows, l, c);
    }
    hide RowCounts, HasRows, Layout.Valid;
    BusyCounts(counts, waits);
  }

  lemma BusyCounts(counts: seq<nat>, waits: nat)
    ensures
      var job := Job(counts, waits);
      && (forall c :: 0 <= c < |counts| ==> (job.Busy(c) <==> counts[c] > 0))
      && (AllBusy(job) <==> forall c :: 0 <= c < |counts| ==> counts[c] > 0)
      && (NobodyBusy(job) <==> forall c :: 0 <= c < |counts| ==> counts[c] == 0)
  {
    var job := Job(counts, waits);
    assert forall c: nat :: c < |counts| ==> (job.Busy(c) <==> counts[c] > 0);
  }

  lemma AllBusyStops(job: Job, s: State)
    requires job.Valid() && Inv(job, s) && Stopped(s)
    requires forall c :: 0 <= c < |s.task| ==> job.Busy(c) && !s.task[c].Failed?
    ensures forall c :: 0 <= c < |s.task| ==> s.task[c] == Finished
  {
    hide Job.Busy, Waiters;
    var d := OneMissing(Waiters(s), |s.task|);
    hide Inv, Stopped;
    StoppedTask(job, s, d);
    forall c | 0 <= c < |s.task|
      ensures s.task[c] == Finished
    {
      StoppedTask(job, s, c);
    }
  }

  /** Wherever a run stops, failures included: `main` returns if all waits were made by all
      clients, and otherwise only if rank 0 itself failed; any other failure leaves it
      waiting for rank 0 for ever. */
  lemma MainReturnsIff(job: Job, before: seq<Line>, run: seq<State>)
    requires job.Valid() && Run(job, before, run) && Stopped(run[|run| - 1]) && job.Busy(0)
    ensures
      var s := run[|run| - 1];
      && |s.task| > 0
      && (MainReturns(s) <==> s.barrier.gen == job.waits || s.task[0].Failed?)
  {
    var s := run[|run| - 1];
    RunKeepsInv(job, before, run, |run| - 1);
    hide Job.Busy, Run, Waiters;
    StoppedTask(job, s, 0);
    if s.barrier.gen == job.waits {
      forall c | 0 <= c < |s.task|
        ensures s.task[c] == Absent || s.task[c].Failed? || s.task[c] == Finished
      {
        StoppedTask(job, s, c);
      }
      ReturnsWhenOver(s);
    } else if s.task[0].Failed? {
      assert ReturnsAt(s, 0);
    }
  }

  lemma ReturnsWhenOver(s: State)
    requires forall c :: 0 <= c < |s.task| ==> s.task[c] == Absent || s.task[c].Failed? || s.task[c] == Finished
    ensures MainReturns(s)
  {
    if exists c :: 0 <= c < |s.task| && s.task[c].Failed? {
      var c :| 0 <= c < |s.task| && s.task[c].Failed?;
      FirstFailure(s, c);
    } else {
      assert ReturnsAt(s, |s.task|);
    }
  }

  lemma {:induction false} FirstFailure(s: State, c: nat)
    requires c < |s.task| && s.task[c].Failed?
    requires forall d :: 0 <= d < |s.task| ==> s.task[d] == Absent || s.task[d].Failed? || s.task[d] == Finished
    ensures MainReturns(s)
  {
    if exists d :: 0 <= d < c && s.task[d].Failed? {
      var d :| 0 <= d < c && s.task[d].Failed?;
      FirstFailure(s, d);
    } else {
      assert ReturnsAt(s, c);
    }
  }

  // ------------------------------------------------------------- timing file

  lemma FileArrival(job: Job, before: seq<Line>, s: State, c: nat)
    requires job.Valid() && Inv(job, s) && FileInv(job, before, s) && c < |s.task| && s.task[c].Work?
        && s.task[c].k <= job.waits
    ensures FileInv(job, before, Arrived(job, s, c))
  {
    hide Job.Busy;
    var t := Arrived(job, s, c);
    assert LegalTask(job, s.barrier.gen, s.task[c]) && s.barrier.gen < job.waits;
    forall d | 0 <= d < |t.task|
      ensures t.task[d] != Finished
    {
      assert LegalTask(job, s.barrier.gen, s.task[d]);
    }
    if s.barrier.LastArrival() && c != 0 {
      AllButOne(Waiters(s), |s.task|, c);
      assert 0 in Waiters(s);
      assert LegalTask(job, s.barrier.gen, s.task[0]);
    }
  }

  lemma FileFinish(job: Job, before: seq<Line>, s: State, c: nat)
    requires job.Valid() && Inv(job, s) && FileInv(job, before, s) && c < |s.task| && s.task[c].Work?
        && s.task[c].k > job.waits
    ensures FileInv(job, before, Advance(job, s, c))
  {
    hide Job.Busy;
    var t := Advance(job, s, c);
    assert LegalTask(job, s.barrier.gen, s.task[c]) && s.barrier.gen == job.waits;
    assert Record(c) !in s.file;
    forall l | l in t.file
      ensures l == Header || (l.Record? && l.rank < |t.task| && t.task[l.rank] == Finished)
    {
    }
    assert t.file[|s.file|] == Record(c);
    forall d | 0 <= d < |t.task| && t.task[d] == Finished
      ensures Record(d) in t.file
    {
      assert d != c ==> Record(d) in s.file;
    }
  }

  lemma StepKeepsFile(job: Job, before: seq<Line>, s: State, t: State)
    requires job.Valid() && Inv(job, s) && FileInv(job, before, s) && Step(job, s, t)
    ensures FileInv(job, before, t)
  {
    hide Job.Busy, Arrived;
    var c :| 0 <= c < |s.task| && MoveOf(job, s, t, c);
    assert LegalTask(job, s.barrier.gen, s.task[c]);
    if s.task[c].Work? && t == Advance(job, s, c) {
      if s.task[c].k <= job.waits {
        FileArrival(job, before, s, c);
      } else {
        FileFinish(job, before, s, c);
      }
    } else {
      assert t.file == s.file && t.barrier == s.barrier && !t.task[c].Waiting? && t.task[c] != Finished;
      assert s.task[c] != Finished;
      assert forall d :: 0 <= d < |s.task| ==> (t.task[d] == Finished <==> s.task[d] == Finished);
    }
  }

  lemma {:induction false} RunKeepsFile(job: Job, before: seq<Line>, run: seq<State>, i: nat)
    requires job.Valid() && Run(job, before, run) && i < |run|
    ensures FileInv(job, before, run[i])
  {
    hide Step, FileInv;
    if i == 0 {
      hide Job.Busy;
      assert FileInv(job, before, Init(job, before)) by { InitFile(job, before); }
    } else {
      RunKeepsFile(job, before, run, i - 1);
      RunKeepsInv(job, before, run, i - 1);
      StepKeepsFile(job, before, run[i - 1], run[i]);
    }
  }

  lemma InitFile(job: Job, before: seq<Line>)
    requires job.Valid()
    ensures FileInv(job, before, Init(job, before))
  {
    hide Job.Busy;
  }

  /** In every state of every run: until rank 0 comes to its last wait the file is what it was
      before the run, and once any client has finished the header is in front. */
  lemma FileOfEveryState(job: Job, before: seq<Line>, run: seq<State>, i: nat)
    requires job.Valid() && Run(job, before, run) && i < |run|
    ensures
      var s := run[i];
      && |s.task| == |job.local|
      && (s.barrier.gen < job.waits && s.task[0] != Waiting(job.waits, s.barrier.gen) ==> s.file == before)
      && (forall c :: 0 <= c < |s.task| && s.task[c] == Finished ==>
            s.file != [] && s.file[0] == Header && Record(c) in s.file)
      && (forall c: nat :: Record(c) in s.file && Record(c) !in before ==> c < |s.task| && s.task[c] == Finished)
  {
    var s := run[i];
    RunKeepsInv(job, before, run, i);
    RunKeepsFile(job, before, run, i);
    hide Run, Waiters;
    assert forall c :: 0 <= c < |s.task| ==> LegalTask(job, s.barrier.gen, s.task[c]);
  }

  /** When every client has finished, the timing file is the header and each client's record
      once, whatever the file held before. */
  lemma FinishedFile(job: Job, before: seq<Line>, run: seq<State>)
    requires job.Valid() && Run(job, before, run)
    requires AllFinished(run[|run| - 1])
    ensures
      var f := run[|run| - 1].file;
      && |f| > 0 && f[0] == Header
      && (forall i, j :: 0 <= i < j < |f| ==> f[i] != f[j])
      && (forall l :: l in f <==> l == Header || (l.Record? && l.rank < |job.local|))
  {
    var s := run[|run| - 1];
    RunKeepsInv(job, before, run, |run| - 1);
    RunKeepsFile(job, before, run, |run| - 1);
    assert LegalTask(job, s.barrier.gen, s.task[0]);
    assert s.barrier.gen == job.waits;
    assert s.file[0] in s.file;
  }
}
