/** The bulk import: every worker process writes its rows into staged file groups while a
    thread of its own uploads them through a queue; `main` builds an import request only from
    complete results. What the bulk writer stages for a batch is the plan, and any file
    operation may fail. */
module BulkUpload {
  import opened Basics
  import opened RowPartition

  /** The files of one group and the ids of the rows in them. */
  datatype Group = Group(files: seq<string>, ids: seq<int>)

  datatype Config = Config(start: nat, stop: nat, batch: nat, idStart: int, plan: nat -> seq<Group>)
  {
    function BatchEnd(at: nat): nat
    {
      if at + batch < stop then at + batch else stop
    }

    /** The writer puts each appended row into one group, in order. */
    ghost predicate Valid()
    {
      && batch > 0 && start <= stop
      && forall at: nat :: at < stop ==> IdsOf(plan(at)) == Ids(idStart, at, BatchEnd(at))
    }
  }

  function IdsOf(groups: seq<Group>): seq<int>
  {
    if groups == [] then [] else IdsOf(groups[..|groups| - 1]) + groups[|groups| - 1].ids
  }

  function Ids(idStart: int, lo: nat, hi: nat): seq<int>
  {
    seq(if lo <= hi then hi - lo else 0, i => idStart + lo + i)
  }

  // ------------------------------------------------------------------ protocol

  datatype Entry = Batch(group: Group) | EndOfBatches

  /** `Write(at)` is about to write the batch at `at`, `Enqueue(at)` to hand over new groups
      before going on to it. */
  datatype Writer =
    | Write(at: nat)
    | Enqueue(at: nat)
    | Closing(failed: bool)
    | Joining(failed: bool)
    | Ended(failed: bool)

  /** `Uploading(g, k, sent)` is at file `k` of `g`; once sent, it may still be unlinked. */
  datatype Uploader = Starting | Getting | Uploading(group: Group, k: nat, sent: bool) | Stopped(failed: bool)

  datatype State = State(
    writer: Writer,
    uploader: Uploader,
    written: nat,
    groups: seq<Group>,
    seen: nat,
    queue: seq<Entry>,
    uploaded: seq<Group>,
    staged: set<string>,
    remote: set<string>)

  function Init(cfg: Config): State
  {
    State(Write(cfg.start), Starting, 0, [], 0, [], [], {}, {})
  }

  function FilesOf(groups: seq<Group>): set<string>
  {
    set g, f | g in groups && f in g.files :: f
  }

  predicate WriterEnabled(s: State)
  {
    !s.writer.Ended? && (s.writer.Joining? ==> s.uploader.Stopped?)
  }

  function WriterStep(cfg: Config, s: State): State
    requires WriterEnabled(s) && s.seen <= |s.groups|
  {
    match s.writer
    case Write(at) =>
      if at >= cfg.stop then s.(writer := Closing(false))
      else
        s.(writer := Enqueue(at + cfg.batch),
           written := s.written + (cfg.BatchEnd(at) - at),
           groups := s.groups + cfg.plan(at),
           staged := s.staged + FilesOf(cfg.plan(at)))
    case Enqueue(at) =>
      if s.seen < |s.groups| then s.(queue := s.queue + [Batch(s.groups[s.seen])], seen := s.seen + 1)
      else s.(writer := Write(at))
    case Closing(failed) => s.(writer := Joining(failed), queue := s.queue + [EndOfBatches])
    case Joining(failed) => s.(writer := Ended(failed))
    case Ended(_) => s
  }

  /** An exception in the `try` block: rows of the batch may be lost, nothing is handed over. */
  predicate WriterFails(s: State, t: State)
  {
    (s.writer.Write? || s.writer.Enqueue?) && t == s.(writer := Closing(true))
  }

  predicate UploaderEnabled(s: State)
  {
    !s.uploader.Stopped? && (s.uploader.Getting? ==> s.queue != [])
  }

  function UploaderStep(s: State): State
    requires UploaderEnabled(s)
  {
    match s.uploader
    case Starting => s.(uploader := Getting)
    case Getting =>
      (match s.queue[0]
       case EndOfBatches => s.(uploader := Stopped(false), queue := s.queue[1..])
       case Batch(g) => s.(uploader := Uploading(g, 0, false), queue := s.queue[1..]))
    case Uploading(g, k, sent) =>
      if k >= |g.files| then s.(uploader := Getting, uploaded := s.uploaded + [g])
      else if !sent then s.(uploader := Uploading(g, k, true), remote := s.remote + {g.files[k]})
      else s.(uploader := Uploading(g, k + 1, false))
    case Stopped(_) => s
  }

  /** Unlinking a file that has been sent. */
  predicate Unlinks(s: State, t: State)
  {
    && s.uploader.Uploading? && s.uploader.sent && s.uploader.k < |s.uploader.group.files|
    && t == s.(uploader := Uploading(s.uploader.group, s.uploader.k + 1, false),
               staged := s.staged - {s.uploader.group.files[s.uploader.k]})
  }

  predicate UploaderFails(s: State, t: State)
  {
    !s.uploader.Stopped? && !s.uploader.Getting? && t == s.(uploader := Stopped(true))
  }

  ghost predicate Step(cfg: Config, s: State, t: State)
  {
    && s.seen <= |s.groups|
    && (|| (WriterEnabled(s) && t == WriterStep(cfg, s))
        || WriterFails(s, t)
        || (UploaderEnabled(s) && t == UploaderStep(s))
        || Unlinks(s, t)
        || UploaderFails(s, t))
  }

  ghost predicate Run(cfg: Config, run: seq<State>)
  {
    && |run| > 0
    && run[0] == Init(cfg)
    && forall i, j :: 0 <= i && j == i + 1 < |run| ==> Step(cfg, run[i], run[j])
  }

  // ----------------------------------------------------------------- invariant

  function Queued(queue: seq<Entry>): seq<Group>
  {
    if queue == [] then []
    else Queued(queue[..|queue| - 1]) + (if queue[|queue| - 1].Batch? then [queue[|queue| - 1].group] else [])
  }

  function InHand(u: Uploader): seq<Group>
  {
    if u.Uploading? then [u.group] else []
  }

  ghost predicate OnlyBatches(queue: seq<Entry>)
  {
    forall i :: 0 <= i < |queue| ==> queue[i].Batch?
  }

  /** The groups handed over are, in order: the uploaded ones, the one in hand, the queue. */
  ghost predicate InOrder(s: State)
  {
    && s.seen <= |s.groups|
    && (s.uploader != Stopped(true) ==>
          s.uploaded + InHand(s.uploader) + Queued(s.queue) == s.groups[..s.seen])
  }

  predicate Closed(w: Writer)
  {
    w.Joining? || w.Ended?
  }

  ghost predicate EndsInMark(queue: seq<Entry>)
  {
    queue != [] && queue[|queue| - 1] == EndOfBatches && OnlyBatches(queue[..|queue| - 1])
  }

  /** The end mark is the last entry, there exactly from the writer's close until the
      uploader takes it. */
  ghost predicate MarkInv(s: State)
  {
    && (Closed(s.writer) && !s.uploader.Stopped? ==> EndsInMark(s.queue))
    && (!Closed(s.writer) ==> OnlyBatches(s.queue) && s.uploader != Stopped(false))
    && (s.uploader == Stopped(false) ==> s.queue == [])
    && (s.writer.Ended? ==> s.uploader.Stopped?)
  }

  ghost predicate QueueInv(s: State)
  {
    InOrder(s) && MarkInv(s)
  }

  /** What has been written is an unbroken range of ids, all of it handed over at the end of
      a batch unless the writer failed. */
  ghost predicate WriterInv(cfg: Config, s: State)
  {
    && cfg.start + s.written <= cfg.stop
    && IdsOf(s.groups) == Ids(cfg.idStart, cfg.start, cfg.start + s.written)
    && (match s.writer
        case Write(at) => s.seen == |s.groups| && cfg.start + s.written == Min(at, cfg.stop)
        case Enqueue(at) => cfg.start + s.written == Min(at, cfg.stop)
        case Closing(failed) => !failed ==> Complete(cfg, s)
        case Joining(failed) => !failed ==> Complete(cfg, s)
        case Ended(failed) => !failed ==> Complete(cfg, s))
  }

  ghost predicate Complete(cfg: Config, s: State)
  {
    s.seen == |s.groups| && cfg.start + s.written == cfg.stop
  }

  /** Every staged file is still there or has been uploaded, and what was handed back as
      uploaded has been. */
  ghost predicate FileInv(s: State)
  {
    && FilesOf(s.groups) <= s.staged + s.remote
    && FilesOf(s.uploaded) <= s.remote
    && (s.uploader.Uploading? ==>
          && s.uploader.k <= |s.uploader.group.files|
          && (forall i :: 0 <= i < s.uploader.k ==> s.uploader.group.files[i] in s.remote)
          && (s.uploader.sent ==>
                s.uploader.k < |s.uploader.group.files| && s.uploader.group.files[s.uploader.k] in s.remote))
  }

  ghost predicate Inv(cfg: Config, s: State)
  {
    QueueInv(s) && WriterInv(cfg, s) && FileInv(s)
  }

  lemma {:induction false} QueuedAppend(queue: seq<Entry>, e: Entry)
    ensures Queued(queue + [e]) == Queued(queue) + (if e.Batch? then [e.group] else [])
  {
    assert (queue + [e])[..|queue|] == queue;
  }

  lemma {:induction false} QueuedHead(queue: seq<Entry>)
    requires queue != []
    ensures Queued(queue) == (if queue[0].Batch? then [queue[0].group] else []) + Queued(queue[1..])
  {
    var n := |queue| - 1;
    if n > 0 {
      QueuedHead(queue[..n]);
      assert queue[1..][..n - 1] == queue[..n][1..];
    }
  }

  lemma {:induction false} IdsOfAppend(a: seq<Group>, b: seq<Group>)
    ensures IdsOf(a + b) == IdsOf(a) + IdsOf(b)
  {
    if b == [] {
      assert a + b == a;
    } else {
      var n := |b| - 1;
      assert (a + b)[..|a| + n] == a + b[..n];
      IdsOfAppend(a, b[..n]);
    }
  }

  lemma IdsJoin(idStart: int, a: nat, b: nat, c: nat)
    requires a <= b <= c
    ensures Ids(idStart, a, b) + Ids(idStart, b, c) == Ids(idStart, a, c)
  {
  }

  lemma WriterKeepsOrder(cfg: Config, s: State)
    requires InOrder(s) && WriterEnabled(s)
    ensures InOrder(WriterStep(cfg, s))
  {
    var t := WriterStep(cfg, s);
    match s.writer {
      case Write(at) =>
        assert t.groups[..t.seen] == s.groups[..s.seen];
      case Enqueue(at) =>
        HandOverKeepsOrder(cfg, s);
      case Closing(failed) =>
        QueuedAppend(s.queue, EndOfBatches);
        hide Queued;
      case Joining(failed) =>
      case Ended(_) =>
    }
  }

  lemma HandOverKeepsOrder(cfg: Config, s: State)
    requires InOrder(s) && s.writer.Enqueue?
    ensures InOrder(WriterStep(cfg, s))
  {
    if s.seen < |s.groups| {
      var g := s.groups[s.seen];
      QueuedAppend(s.queue, Batch(g));
      assert s.groups[..s.seen + 1] == s.groups[..s.seen] + [g];
      hide Queued;
      assert s.uploaded + InHand(s.uploader) + (Queued(s.queue) + [g]) ==
             s.uploaded + InHand(s.uploader) + Queued(s.queue) + [g];
    }
  }

  lemma WriterKeepsMark(cfg: Config, s: State)
    requires MarkInv(s) && WriterEnabled(s) && s.seen <= |s.groups|
    ensures MarkInv(WriterStep(cfg, s))
  {
    var t := WriterStep(cfg, s);
    if s.writer.Closing? {
      assert t.queue[..|t.queue| - 1] == s.queue;
    }
  }

  lemma UploaderKeepsOrder(s: State)
    requires InOrder(s) && UploaderEnabled(s)
    ensures InOrder(UploaderStep(s))
  {
    if s.uploader.Getting? {
      QueuedHead(s.queue);
      if s.queue[0].Batch? {
        assert s.uploaded + [] + ([s.queue[0].group] + Queued(s.queue[1..])) ==
               s.uploaded + [s.queue[0].group] + Queued(s.queue[1..]);
      } else {
        assert [] + Queued(s.queue[1..]) == Queued(s.queue[1..]);
      }
    } else if s.uploader.Uploading? {
      assert s.uploaded + [s.uploader.group] + [] == s.uploaded + [s.uploader.group];
    }
  }

  lemma UploaderKeepsMark(s: State)
    requires MarkInv(s) && UploaderEnabled(s)
    ensures MarkInv(UploaderStep(s))
  {
    if s.uploader.Getting? {
      if Closed(s.writer) {
        TakeMarked(s.queue);
      }
    }
  }

  lemma TakeMarked(queue: seq<Entry>)
    requires EndsInMark(queue)
    ensures queue[0] == EndOfBatches ==> queue[1..] == []
    ensures queue[0].Batch? ==> EndsInMark(queue[1..])
  {
    var n := |queue| - 1;
    assert n > 0 ==> queue[..n][0] == queue[0];
    if n > 0 {
      assert queue[1..][..n - 1] == queue[..n][1..];
    }
  }

  lemma WriterKeepsRows(cfg: Config, s: State)
    requires cfg.Valid() && QueueInv(s) && WriterInv(cfg, s) && WriterEnabled(s)
    ensures WriterInv(cfg, WriterStep(cfg, s))
  {
    if s.writer.Write? && s.writer.at < cfg.stop {
      BatchKeepsRows(cfg, s);
    } else {
      assert WriterStep(cfg, s).groups == s.groups && WriterStep(cfg, s).written == s.written;
      hide IdsOf, Ids;
    }
  }

  lemma BatchKeepsRows(cfg: Config, s: State)
    requires cfg.Valid() && WriterInv(cfg, s) && s.seen <= |s.groups|
    requires s.writer.Write? && s.writer.at < cfg.stop
    ensures WriterInv(cfg, WriterStep(cfg, s))
  {
    var at := s.writer.at;
    assert IdsOf(cfg.plan(at)) == Ids(cfg.idStart, at, cfg.BatchEnd(at));
    IdsOfAppend(s.groups, cfg.plan(at));
    IdsJoin(cfg.idStart, cfg.start, at, cfg.BatchEnd(at));
    hide IdsOf, Ids;
  }

  lemma FilesOfAppend(a: seq<Group>, b: seq<Group>)
    ensures FilesOf(a + b) == FilesOf(a) + FilesOf(b)
  {
    assert forall g :: g in a + b <==> g in a || g in b;
  }

  lemma FilesOfOne(g: Group)
    ensures forall f :: f in FilesOf([g]) <==> f in g.files
  {
    assert g in [g];
  }

  lemma StepKeepsFiles(cfg: Config, s: State, t: State)
    requires FileInv(s) && Step(cfg, s, t)
    ensures FileInv(t)
  {
    if WriterEnabled(s) && t == WriterStep(cfg, s) {
      if s.writer.Write? && s.writer.at < cfg.stop {
        FilesOfAppend(s.groups, cfg.plan(s.writer.at));
      }
    } else if UploaderEnabled(s) && t == UploaderStep(s) {
      if s.uploader.Uploading? && s.uploader.k >= |s.uploader.group.files| {
        FilesOfAppend(s.uploaded, [s.uploader.group]);
        FilesOfOne(s.uploader.group);
      }
    }
  }

  lemma StepKeepsInv(cfg: Config, s: State, t: State)
    requires cfg.Valid() && Inv(cfg, s) && Step(cfg, s, t)
    ensures Inv(cfg, t)
  {
    StepKeepsFiles(cfg, s, t);
    hide FileInv;
    if WriterEnabled(s) && t == WriterStep(cfg, s) {
      WriterKeepsOrder(cfg, s);
      WriterKeepsMark(cfg, s);
      WriterKeepsRows(cfg, s);
    } else if UploaderEnabled(s) && t == UploaderStep(s) {
      UploaderKeepsOrder(s);
      UploaderKeepsMark(s);
    }
  }

  lemma {:induction false} RunKeepsInv(cfg: Config, run: seq<State>, i: nat)
    requires cfg.Valid() && Run(cfg, run) && i < |run|
    ensures Inv(cfg, run[i])
  {
    if i > 0 {
      hide Inv, Step;
      RunKeepsInv(cfg, run, i - 1);
      StepKeepsInv(cfg, run[i - 1], run[i]);
    }
  }

  // ----------------------------------------------------------- join and bound

  /** The join always returns: until the writer has ended something can move, and nothing
      can after that. */
  lemma JoinReturns(cfg: Config, run: seq<State>)
    requires cfg.Valid() && Run(cfg, run)
    ensures
      var s := run[|run| - 1];
      (exists t :: Step(cfg, s, t)) <==> !s.writer.Ended?
  {
    var s := run[|run| - 1];
    RunKeepsInv(cfg, run, |run| - 1);
    if !s.writer.Ended? {
      if WriterEnabled(s) {
        assert Step(cfg, s, WriterStep(cfg, s));
      } else {
        assert Step(cfg, s, UploaderStep(s));
      }
    }
  }

  function UploadCost(g: Group): nat
  {
    2 + 2 * |g.files|
  }

  function Costs(groups: seq<Group>): nat
  {
    if groups == [] then 0 else Costs(groups[..|groups| - 1]) + UploadCost(groups[|groups| - 1]) + 1
  }

  function QueueCost(queue: seq<Entry>): nat
  {
    if queue == [] then 0
    else QueueCost(queue[1..]) + (if queue[0].Batch? then UploadCost(queue[0].group) else 1)
  }

  /** What the batches from `at` on will cost. */
  function Ahead(cfg: Config, at: nat): nat
    requires cfg.batch > 0
    decreases if at < cfg.stop then cfg.stop - at else 0
  {
    if at >= cfg.stop then 0 else 2 + Costs(cfg.plan(at)) + Ahead(cfg, at + cfg.batch)
  }

  function WriterLeft(cfg: Config, w: Writer): nat
    requires cfg.batch > 0
  {
    match w
    case Write(at) => 4 + Ahead(cfg, at)
    case Enqueue(at) => 5 + Ahead(cfg, at)
    case Closing(_) => 3
    case Joining(_) => 1
    case Ended(_) => 0
  }

  function UploaderLeft(u: Uploader): int
  {
    match u
    case Starting => 2
    case Getting => 1
    case Uploading(g, k, sent) => 2 + 2 * (|g.files| - k) - (if sent then 1 else 0)
    case Stopped(_) => 0
  }

  function Left(cfg: Config, s: State): int
    requires cfg.batch > 0 && s.seen <= |s.groups|
  {
    WriterLeft(cfg, s.writer) + UploaderLeft(s.uploader) + QueueCost(s.queue) + Costs(s.groups[s.seen..])
  }

  lemma {:induction false} QueueCostAppend(queue: seq<Entry>, e: Entry)
    ensures QueueCost(queue + [e]) == QueueCost(queue) + (if e.Batch? then UploadCost(e.group) else 1)
  {
    if queue != [] {
      assert (queue + [e])[1..] == queue[1..] + [e];
      QueueCostAppend(queue[1..], e);
    }
  }

  lemma {:induction false} CostsAppend(a: seq<Group>, b: seq<Group>)
    ensures Costs(a + b) == Costs(a) + Costs(b)
  {
    if b == [] {
      assert a + b == a;
    } else {
      var n := |b| - 1;
      assert (a + b)[..|a| + n] == a + b[..n];
      CostsAppend(a, b[..n]);
    }
  }

  lemma WriterSpends(cfg: Config, s: State)
    requires cfg.Valid() && s.seen <= |s.groups| && WriterEnabled(s)
    requires s.writer.Write? ==> s.seen == |s.groups|
    ensures WriterStep(cfg, s).seen <= |WriterStep(cfg, s).groups|
    ensures Left(cfg, WriterStep(cfg, s)) < Left(cfg, s)
  {
    var t := WriterStep(cfg, s);
    match s.writer {
      case Write(at) =>
        if at < cfg.stop {
          assert t.groups[t.seen..] == cfg.plan(at);
          assert s.groups[s.seen..] == [];
          hide QueueCost;
        }
      case Enqueue(at) =>
        HandOverSpends(cfg, s);
      case Closing(failed) =>
        QueueCostAppend(s.queue, EndOfBatches);
        hide QueueCost, Costs;
      case Joining(failed) =>
      case Ended(_) =>
    }
  }

  lemma HandOverSpends(cfg: Config, s: State)
    requires cfg.Valid() && s.seen <= |s.groups| && s.writer.Enqueue?
    ensures WriterStep(cfg, s).seen <= |WriterStep(cfg, s).groups|
    ensures Left(cfg, WriterStep(cfg, s)) < Left(cfg, s)
  {
    if s.seen < |s.groups| {
      var g := s.groups[s.seen];
      QueueCostAppend(s.queue, Batch(g));
      assert s.groups[s.seen..] == [g] + s.groups[s.seen + 1..];
      CostsAppend([g], s.groups[s.seen + 1..]);
      assert [g][..0] == [];
      assert Costs([g]) == UploadCost(g) + 1;
      hide QueueCost, Costs, UploadCost, Ahead;
    }
  }

  lemma UploaderSpends(cfg: Config, s: State)
    requires cfg.Valid() && s.seen <= |s.groups| && FileInv(s) && UploaderEnabled(s)
    ensures Left(cfg, UploaderStep(s)) < Left(cfg, s)
    ensures UploaderLeft(UploaderStep(s).uploader) >= 0
  {
    hide WriterLeft, Costs, FilesOf;
  }

  /** A failure or an unlinked file. */
  lemma AsideSpends(cfg: Config, s: State, t: State)
    requires cfg.Valid() && s.seen <= |s.groups| && FileInv(s)
    requires WriterFails(s, t) || Unlinks(s, t) || UploaderFails(s, t)
    ensures t.seen <= |t.groups| && Left(cfg, t) < Left(cfg, s)
  {
    hide Ahead, Costs, QueueCost, FilesOf;
  }

  lemma LeftIsNatural(cfg: Config, s: State)
    requires cfg.Valid() && s.seen <= |s.groups| && FileInv(s)
    ensures Left(cfg, s) >= 0
  {
    hide Ahead, Costs, QueueCost, FilesOf;
  }

  lemma StepSpends(cfg: Config, s: State, t: State)
    requires cfg.Valid() && Inv(cfg, s) && Step(cfg, s, t)
    ensures t.seen <= |t.groups| && 0 <= Left(cfg, t) < Left(cfg, s)
  {
    StepKeepsInv(cfg, s, t);
    LeftIsNatural(cfg, t);
    assert FileInv(s);
    hide FileInv, Left, FilesOf;
    if WriterEnabled(s) && t == WriterStep(cfg, s) {
      WriterSpends(cfg, s);
    } else if UploaderEnabled(s) && t == UploaderStep(s) {
      UploaderSpends(cfg, s);
    } else {
      hide WriterStep, UploaderStep;
      AsideSpends(cfg, s, t);
    }
  }

  lemma {:induction false} RunIsBounded(cfg: Config, run: seq<State>, i: nat)
    requires cfg.Valid() && Run(cfg, run) && i < |run|
    ensures run[i].seen <= |run[i].groups| && 0 <= Left(cfg, run[i])
        && Left(cfg, run[i]) + i <= 6 + Ahead(cfg, cfg.start)
  {
    if i > 0 {
      RunIsBounded(cfg, run, i - 1);
      RunKeepsInv(cfg, run, i - 1);
      StepSpends(cfg, run[i - 1], run[i]);
    }
  }

  // ------------------------------------------------------------------- results

  /** No staged file is gone before it has been uploaded, in any state of any run. */
  lemma NothingLost(cfg: Config, run: seq<State>, i: nat, f: string)
    requires cfg.Valid() && Run(cfg, run) && i < |run| && f in FilesOf(run[i].groups)
    ensures f in run[i].staged || f in run[i].remote
    ensures f in FilesOf(run[i].uploaded) ==> f in run[i].remote
  {
    RunKeepsInv(cfg, run, i);
  }

  /** A worker that ends without an error on either side has uploaded exactly the groups it
      wrote, in order, and they hold exactly its rows' ids. */
  lemma GoodWorker(cfg: Config, run: seq<State>)
    requires cfg.Valid() && Run(cfg, run)
    requires run[|run| - 1].writer == Ended(false) && run[|run| - 1].uploader == Stopped(false)
    ensures
      var s := run[|run| - 1];
      && s.uploaded == s.groups
      && IdsOf(s.uploaded) == Ids(cfg.idStart, cfg.start, cfg.stop)
      && FilesOf(s.uploaded) <= s.remote
      && cfg.start + s.written == cfg.stop
  {
    var s := run[|run| - 1];
    RunKeepsInv(cfg, run, |run| - 1);
    assert s.groups[..s.seen] == s.groups;
    assert s.uploaded + [] + [] == s.uploaded;
  }

  // ------------------------------------------------------------ runs without failures

  /** A step in which nothing goes wrong; with `unlinks` every file sent is then removed. */
  ghost predicate CleanStep(cfg: Config, s: State, t: State, unlinks: bool)
  {
    && s.seen <= |s.groups|
    && (|| (WriterEnabled(s) && t == WriterStep(cfg, s))
        || (UploaderEnabled(s) && t == UploaderStep(s) && !(unlinks && s.uploader.Uploading? && s.uploader.sent))
        || Unlinks(s, t))
  }

  ghost predicate CleanRun(cfg: Config, run: seq<State>, unlinks: bool)
  {
    Run(cfg, run) && forall i, j :: 0 <= i && j == i + 1 < |run| ==> CleanStep(cfg, run[i], run[j], unlinks)
  }

  lemma {:induction false} NothingFailed(cfg: Config, run: seq<State>, unlinks: bool, i: nat)
    requires cfg.Valid() && CleanRun(cfg, run, unlinks) && i < |run|
    ensures run[i].uploader != Stopped(true)
    ensures run[i].writer != Closing(true) && run[i].writer != Joining(true) && run[i].writer != Ended(true)
  {
    if i > 0 {
      NothingFailed(cfg, run, unlinks, i - 1);
      assert CleanStep(cfg, run[i - 1], run[i], unlinks);
    }
  }

  /** A worker for which nothing goes wrong ends well, with everything uploaded. */
  lemma CleanRunSucceeds(cfg: Config, run: seq<State>, unlinks: bool)
    requires cfg.Valid() && CleanRun(cfg, run, unlinks) && run[|run| - 1].writer.Ended?
    ensures
      var s := run[|run| - 1];
      && s.writer == Ended(false) && s.uploader == Stopped(false)
      && s.uploaded == s.groups && IdsOf(s.uploaded) == Ids(cfg.idStart, cfg.start, cfg.stop)
      && FilesOf(s.uploaded) <= s.remote
  {
    NothingFailed(cfg, run, unlinks, |run| - 1);
    RunKeepsInv(cfg, run, |run| - 1);
    GoodWorker(cfg, run);
  }

  /** No new group is staged under the name of an earlier file. */
  ghost predicate FreshNames(cfg: Config, run: seq<State>)
  {
    forall i :: 0 <= i < |run| && run[i].writer.Write? && run[i].writer.at < cfg.stop ==>
      FilesOf(cfg.plan(run[i].writer.at)) !! FilesOf(run[i].groups)
  }

  /** The groups on their way are groups that were written, and what has been sent is gone. */
  ghost predicate Tidy(s: State)
  {
    && (forall g :: g in s.uploaded ==> g in s.groups && forall f :: f in g.files ==> f !in s.staged)
    && (forall e :: e in s.queue && e.Batch? ==> e.group in s.groups)
    && (s.uploader.Uploading? ==>
          && s.uploader.group in s.groups && s.uploader.k <= |s.uploader.group.files|
          && forall i :: 0 <= i < s.uploader.k ==> s.uploader.group.files[i] !in s.staged)
  }

  lemma WriterTidies(cfg: Config, s: State)
    requires Tidy(s) && s.seen <= |s.groups| && WriterEnabled(s)
    requires s.writer.Write? && s.writer.at < cfg.stop ==> FilesOf(cfg.plan(s.writer.at)) !! FilesOf(s.groups)
    ensures Tidy(WriterStep(cfg, s))
  {
    var t := WriterStep(cfg, s);
    if s.writer.Write? && s.writer.at < cfg.stop {
      var added := FilesOf(cfg.plan(s.writer.at));
      forall g, f | g in s.groups && f in g.files
        ensures f !in added
      {
        assert f in FilesOf(s.groups);
      }
    } else {
      assert t.groups == s.groups && t.staged == s.staged && t.uploaded == s.uploaded;
    }
  }

  lemma {:induction false} StaysTidy(cfg: Config, run: seq<State>, i: nat)
    requires CleanRun(cfg, run, true) && FreshNames(cfg, run) && i < |run|
    ensures Tidy(run[i])
  {
    if i > 0 {
      StaysTidy(cfg, run, i - 1);
      var s, t := run[i - 1], run[i];
      assert CleanStep(cfg, s, t, true);
      hide CleanRun, FilesOf;
      if WriterEnabled(s) && t == WriterStep(cfg, s) {
        WriterTidies(cfg, s);
      }
    }
  }

  /** Where every file sent can be removed and names are not used again, a worker that ends well
      leaves nothing behind of what it uploaded. */
  lemma NothingLeftStaged(cfg: Config, run: seq<State>)
    requires cfg.Valid() && CleanRun(cfg, run, true) && FreshNames(cfg, run) && run[|run| - 1].writer.Ended?
    ensures
      var s := run[|run| - 1];
      FilesOf(s.groups) !! s.staged && FilesOf(s.groups) <= s.remote
  {
    CleanRunSucceeds(cfg, run, true);
    StaysTidy(cfg, run, |run| - 1);
  }

  // --------------------------------------------------------------------- outcomes

  /** What a worker process leaves for `main`: a result if it published one, and whether its
      exit code was zero. */
  datatype Outcome = Outcome(published: bool, ok: bool, batchFiles: seq<Group>, exitZero: bool)

  function OutcomeOf(s: State): Outcome
  {
    if s.writer == Ended(true) then Outcome(true, false, s.uploaded, false)
    else if s.uploader == Stopped(true) then Outcome(false, false, [], false)
    else Outcome(true, true, s.uploaded, true)
  }

  const EMPTY_SLICE := Outcome(true, true, [], true)

  /** The outcome is that of a worker over `[start, stop)`: at once when that is empty, and
      otherwise at the end of some run. A killed process publishes nothing. */
  ghost predicate WorkerOutcome(cfg: Config, o: Outcome)
  {
    || (cfg.start >= cfg.stop && o == EMPTY_SLICE)
    || (!o.published && !o.exitZero)
    || (cfg.start < cfg.stop && exists run :: RunEnds(cfg, run, o))
  }

  ghost predicate RunEnds(cfg: Config, run: seq<State>, o: Outcome)
  {
    Run(cfg, run) && run[|run| - 1].writer.Ended? && o == OutcomeOf(run[|run| - 1])
  }

  function Flatten(outcomes: seq<Outcome>): seq<Group>
  {
    if outcomes == [] then [] else Flatten(outcomes[..|outcomes| - 1]) + outcomes[|outcomes| - 1].batchFiles
  }

  datatype Request = NoRequest | ImportOf(groups: seq<Group>)

  /** The checks in `main` before the request is built; the results are sorted by worker. */
  function Gate(outcomes: seq<Outcome>): Request
  {
    if exists i :: 0 <= i < |outcomes| && !outcomes[i].published then NoRequest
    else if exists i :: 0 <= i < |outcomes| && (!outcomes[i].exitZero || !outcomes[i].ok) then NoRequest
    else if Flatten(outcomes) == [] then NoRequest
    else ImportOf(Flatten(outcomes))
  }

  ghost predicate Workers(cfgs: seq<Config>, rows: nat, idStart: int)
  {
    && |cfgs| > 0
    && forall i: nat :: i < |cfgs| ==>
         && cfgs[i].Valid() && cfgs[i].idStart == idStart
         && SplitRange(rows, |cfgs|, i) == Slice(cfgs[i].start, cfgs[i].stop)
  }

  lemma GoodOutcome(cfg: Config, o: Outcome)
    requires cfg.Valid() && WorkerOutcome(cfg, o) && o.published && o.ok && o.exitZero
    ensures IdsOf(o.batchFiles) == Ids(cfg.idStart, cfg.start, cfg.stop)
  {
    if cfg.start < cfg.stop {
      var run :| RunEnds(cfg, run, o);
      RunKeepsInv(cfg, run, |run| - 1);
      GoodWorker(cfg, run);
    }
  }

  /** The worker's run ended with the files of all its groups uploaded. */
  ghost predicate AllSent(cfg: Config, o: Outcome)
  {
    exists run: seq<State> :: RunEnds(cfg, run, o) && FilesOf(o.batchFiles) <= run[|run| - 1].remote
  }

  lemma FilesAreRemote(cfg: Config, o: Outcome)
    requires cfg.Valid() && WorkerOutcome(cfg, o) && o.published && o.ok && o.exitZero && cfg.start < cfg.stop
    ensures AllSent(cfg, o)
  {
    var run :| RunEnds(cfg, run, o);
    RunKeepsInv(cfg, run, |run| - 1);
  }

  /** Whenever `main` builds a request, its groups hold the id of every row exactly once, in
      row order, worker after worker, and every worker has uploaded the files of its groups. */
  lemma RequestHoldsAllRows(cfgs: seq<Config>, outcomes: seq<Outcome>, rows: nat, idStart: int)
    requires Workers(cfgs, rows, idStart) && |outcomes| == |cfgs|
    requires forall i :: 0 <= i < |cfgs| ==> WorkerOutcome(cfgs[i], outcomes[i])
    requires Gate(outcomes).ImportOf?
    ensures
      var ids := IdsOf(Gate(outcomes).groups);
      |ids| == rows && forall r :: 0 <= r < rows ==> ids[r] == idStart + r
    ensures forall i :: 0 <= i < |cfgs| && cfgs[i].start < cfgs[i].stop ==> AllSent(cfgs[i], outcomes[i])
  {
    forall i | 0 <= i < |cfgs| && cfgs[i].start < cfgs[i].stop
      ensures AllSent(cfgs[i], outcomes[i])
    {
      FilesAreRemote(cfgs[i], outcomes[i]);
    }

    FlattenedIds(cfgs, outcomes, rows, idStart, |cfgs|);
    SplitFacts(rows, |cfgs|, |cfgs| - 1);
    assert outcomes[..|cfgs|] == outcomes;
  }

  lemma {:induction false} FlattenedIds(cfgs: seq<Config>, outcomes: seq<Outcome>, rows: nat, idStart: int, k: nat)
    requires Workers(cfgs, rows, idStart) && |outcomes| == |cfgs| && k <= |cfgs|
    requires forall i :: 0 <= i < |cfgs| ==>
      WorkerOutcome(cfgs[i], outcomes[i]) && outcomes[i].published && outcomes[i].ok && outcomes[i].exitZero
    ensures IdsOf(Flatten(outcomes[..k])) == Ids(idStart, 0, if k == 0 then 0 else cfgs[k - 1].stop)
  {
    hide SplitRange, WorkerOutcome, Config.Valid;
    if k > 0 {
      FlattenedIds(cfgs, outcomes, rows, idStart, k - 1);
      assert outcomes[..k][..k - 1] == outcomes[..k - 1];
      GoodOutcome(cfgs[k - 1], outcomes[k - 1]);
      IdsOfAppend(Flatten(outcomes[..k - 1]), outcomes[k - 1].batchFiles);
      SplitFacts(rows, |cfgs|, k - 1);
      if k > 1 {
        SplitFacts(rows, |cfgs|, k - 2);
      }
      IdsJoin(idStart, 0, cfgs[k - 1].start, cfgs[k - 1].stop);
    }
  }

  predicate Good(o: Outcome)
  {
    o.published && o.ok && o.exitZero
  }

  /** A worker's outcome is good exactly when its slice is empty or neither its writer nor its
      uploader has failed. */
  lemma GoodOutcomeIff(cfg: Config, run: seq<State>, o: Outcome)
    requires cfg.Valid() && cfg.start < cfg.stop && RunEnds(cfg, run, o)
    ensures Good(o) <==> run[|run| - 1].writer == Ended(false) && run[|run| - 1].uploader == Stopped(false)
    ensures !Good(o) ==> !o.ok && !o.exitZero
    ensures o.published <==> run[|run| - 1].writer == Ended(true) || run[|run| - 1].uploader == Stopped(false)
    ensures o.published ==> o.batchFiles == run[|run| - 1].uploaded
  {
    RunKeepsInv(cfg, run, |run| - 1);
  }

  /** Exactly when `main` builds a request: there are rows, and every worker's outcome is
      good, that is, no writer and no uploader failed and no process died. */
  lemma RequestBuiltIff(cfgs: seq<Config>, outcomes: seq<Outcome>, rows: nat, idStart: int)
    requires Workers(cfgs, rows, idStart) && |outcomes| == |cfgs|
    requires forall i :: 0 <= i < |cfgs| ==> WorkerOutcome(cfgs[i], outcomes[i])
    ensures Gate(outcomes).ImportOf? <==> rows > 0 && forall i :: 0 <= i < |outcomes| ==> Good(outcomes[i])
  {
    hide WorkerOutcome, Config.Valid, Workers;
    if forall i :: 0 <= i < |outcomes| ==> Good(outcomes[i]) {
      FlattenedIds(cfgs, outcomes, rows, idStart, |cfgs|);
      assert outcomes[..|cfgs|] == outcomes;
      LastStop(cfgs, rows, idStart);
      if rows == 0 {
        NoGroups(cfgs, outcomes, idStart, |cfgs|);
      }
    } else {
      assert exists i :: 0 <= i < |outcomes| && !Good(outcomes[i]);
    }
  }

  lemma LastStop(cfgs: seq<Config>, rows: nat, idStart: int)
    requires Workers(cfgs, rows, idStart)
    ensures |cfgs| > 0 && cfgs[|cfgs| - 1].stop == rows
    ensures rows == 0 ==> forall i :: 0 <= i < |cfgs| ==> cfgs[i].start >= cfgs[i].stop
  {
    hide SplitRange;
    SplitFacts(rows, |cfgs|, |cfgs| - 1);
    SplitTiles(rows, |cfgs|);
    forall i: nat | i < |cfgs| && rows == 0
      ensures cfgs[i].start >= cfgs[i].stop
    {
      TilesBounds(Split(rows, |cfgs|), 0, rows, i);
      assert Split(rows, |cfgs|)[i] == SplitRange(rows, |cfgs|, i);
    }
  }

  lemma {:induction false} NoGroups(cfgs: seq<Config>, outcomes: seq<Outcome>, idStart: int, k: nat)
    requires Workers(cfgs, 0, idStart) && |outcomes| == |cfgs| && k <= |cfgs|
    requires forall i :: 0 <= i < |cfgs| ==> WorkerOutcome(cfgs[i], outcomes[i]) && Good(outcomes[i])
    ensures Flatten(outcomes[..k]) == []
  {
    if k > 0 {
      NoGroups(cfgs, outcomes, idStart, k - 1);
      LastStop(cfgs, 0, idStart);
      assert outcomes[..k][..k - 1] == outcomes[..k - 1];
      EmptyWorker(cfgs[k - 1], outcomes[k - 1]);
    }
  }

  lemma EmptyWorker(cfg: Config, o: Outcome)
    requires WorkerOutcome(cfg, o) && cfg.start >= cfg.stop && Good(o)
    ensures o.batchFiles == []
  {
  }
}
