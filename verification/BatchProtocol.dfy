/** The Go batch clients as a step relation over N clients: five waits at a reusable barrier,
    a start gate opened by rank 0, a channel closed when the collection is searchable, and a
    rank-0-first CSV writer. A step is one critical section of one client; any client whose
    wait condition holds may step next. */
module BatchProtocol {
  import opened RowPartition
  import opened Coordination

  /** INDEX runs upload like INSERT but are reported differently. */
  datatype Mode = Insert | Index | Query

  /** One sweep over clients with `local[c]` rows each. `marker` is the single-sweep
      workflow-marker case. */
  datatype Setup = Setup(local: seq<nat>, batch: nat, marker: bool, mode: Mode)
  {
    ghost predicate Sound()
    {
      local != [] && batch > 0
    }

    /** If any client has rows, rank 0 has. */
    ghost predicate Valid()
    {
      Sound() && forall c :: 0 <= c < |local| && local[c] > 0 ==> local[0] > 0
    }

    function N(): nat
    {
      |local|
    }

    predicate Busy(c: nat)
    {
      c < |local| && local[c] > 0
    }

    function LocalRows(c: nat): nat
    {
      if c < |local| then local[c] else 0
    }
  }

  /** The sweep that `main` starts: the rows split among the clients of a layout. */
  function SetupFor(l: Layout, rows: nat, batch: nat, marker: bool, mode: Mode): Setup
    requires l.perWorker > 0
  {
    Setup(RowCounts(rows, l), batch, marker, mode)
  }

  /** Where a client is. `Arrive(k)` is about to enter the k-th barrier wait, `Waiting(k, g)`
      is inside it having read generation `g`. `Releasing(err)` has appended its record, with or
      without an error, and still holds the writer; `Dying` has let go of it after an error. */
  datatype Pc =
    | Start
    | CountReady
    | CloseReady
    | Arrive(k: nat)
    | Waiting(k: nat, g: nat)
    | GateWait
    | GateOpen
    | Loop(i: nat)
    | Publish
    | PublishAgain
    | AwaitSearchable
    | WantLock
    | Writing
    | Releasing(err: bool)
    | Dying
    | Done

  datatype State = State(
    pc: seq<Pc>,
    barrier: BarrierState,
    timing: TimingState,
    gate: GateState,
    writer: WriterState,
    csv: CsvState,
    fatal: bool)

  function Init(su: Setup): State
  {
    State(seq(su.N(), _ => Start), BarrierState(su.N(), su.N(), 0), TimingState(su.N(), 0, 0),
          GateState(false), WriterState(false, false), CsvState(false, []), false)
  }

  /** Where a client goes once the k-th barrier wait returns. */
  function After(su: Setup, c: nat, k: nat): Pc
  {
    if k == 1 then (if su.Busy(c) && su.marker then GateWait else Arrive(2))
    else if k == 2 then (if su.Busy(c) then Loop(0) else Arrive(3))
    else if k == 3 then (if su.Busy(c) && c == 0 then Publish else AwaitSearchable)
    else if k == 4 then Arrive(5)
    else (if su.Busy(c) then WantLock else Done)
  }

  /** Can the client go on, and need not wait? */
  predicate Enabled(su: Setup, s: State, c: nat)
    requires c < |s.pc|
  {
    match s.pc[c]
    case Waiting(_, g) => s.barrier.MayLeave(g)
    case GateWait => s.gate.Passes(c)
    case AwaitSearchable => s.timing.Closed()
    case WantLock => s.writer.MayLock(c)
    case Dying => false
    case Done => false
    case _ => true
  }

  /** Can nobody go on? */
  predicate Blocked(su: Setup, s: State)
  {
    forall c :: 0 <= c < |s.pc| ==> !Enabled(su, s, c)
  }

  /** What a step meets: whether rank 0's wait for quiescence succeeds, and what goes wrong in
      an append. */
  datatype Luck = Luck(quiesced: bool, fault: Fault)

  /** One step of client `c`. */
  function Advance(su: Setup, s: State, c: nat, luck: Luck): State
    requires c < |s.pc| && s.barrier.count > 0
  {
    match s.pc[c]
    case Start =>
      if su.Busy(c) then s.(pc := s.pc[c := Arrive(1)])
      else
        s.(pc := s.pc[c := CountReady],
           writer := if su.mode == Insert && c == 0 then s.writer.SkipRankZero() else s.writer)
    case CountReady =>
      var t := s.timing.CountReady();
      s.(pc := s.pc[c := if t.AllReady() then CloseReady else Arrive(1)], timing := t)
    case CloseReady =>
      s.(pc := s.pc[c := Arrive(1)], timing := s.timing.MarkSearchable())
    case Arrive(k) =>
      s.(pc := s.pc[c := if s.barrier.LastArrival() then After(su, c, k) else Waiting(k, s.barrier.gen)],
         barrier := s.barrier.Arrive())
    case Waiting(k, _) =>
      s.(pc := s.pc[c := After(su, c, k)])
    case GateWait =>
      s.(pc := s.pc[c := if c == 0 then GateOpen else Arrive(2)])
    case GateOpen =>
      s.(pc := s.pc[c := Arrive(2)], gate := s.gate.Open())
    case Loop(i) =>
      s.(pc := s.pc[c := if i < su.LocalRows(c) then Loop(i + su.batch) else Arrive(3)])
    case Publish =>
      s.(pc := s.pc[c := PublishAgain],
         timing := if su.mode != Query && luck.quiesced then s.timing.MarkSearchable() else s.timing)
    case PublishAgain =>
      s.(pc := s.pc[c := AwaitSearchable], timing := s.timing.MarkSearchable())
    case AwaitSearchable =>
      s.(pc := s.pc[c := Arrive(4)])
    case WantLock =>
      s.(pc := s.pc[c := Writing], writer := s.writer.Lock())
    case Writing =>
      s.(pc := s.pc[c := Releasing(s.csv.Errs(c, luck.fault))], csv := s.csv.AppendWith(c, luck.fault))
    case Releasing(err) =>
      s.(pc := s.pc[c := if err then Dying else Done], writer := s.writer.Unlock(c))
    case Dying => s
    case Done => s
  }

  /** An error may end the whole process (`log.Fatal`) wherever a client is at work, and does so
      after a failed append. A client that waits for others runs no code, so it cannot. */
  predicate MayDie(su: Setup, s: State, c: nat)
    requires c < |s.pc|
  {
    Enabled(su, s, c) || s.pc[c] == Dying
  }

  ghost predicate Step(su: Setup, s: State, t: State)
  {
    && !s.fatal
    && s.barrier.count > 0
    && exists c, luck :: 0 <= c < |s.pc| && MoveOf(su, s, t, c, luck)
  }

  ghost predicate MoveOf(su: Setup, s: State, t: State, c: nat, luck: Luck)
    requires c < |s.pc| && s.barrier.count > 0
  {
    || (Enabled(su, s, c) && t == Advance(su, s, c, luck))
    || (MayDie(su, s, c) && t == s.(fatal := true))
  }

  /** A step in which the process lives on. */
  ghost predicate LivingStep(su: Setup, s: State, t: State)
  {
    Step(su, s, t) && !t.fatal
  }

  /** A run: it begins in the initial state and every further state is one step later. */
  ghost predicate Run(su: Setup, run: seq<State>)
  {
    && |run| > 0
    && run[0] == Init(su)
    && forall i, j :: 0 <= i && j == i + 1 < |run| ==> Step(su, run[i], run[j])
  }

  ghost predicate AllDone(s: State)
  {
    forall c :: 0 <= c < |s.pc| ==> s.pc[c] == Done
  }

  /** Is the client through, or on its way to end the process? */
  predicate Ended(p: Pc)
  {
    p == Done || p == Dying
  }

  ghost predicate AllEnded(s: State)
  {
    forall c :: 0 <= c < |s.pc| ==> Ended(s.pc[c])
  }

  // -------------------------------------------------------------- invariants

  /** The number of barrier waits a client is past, counting a wait it was already released
      from as passed. */
  function Passed(p: Pc, gen: nat): nat
  {
    match p
    case Start => 0
    case CountReady => 0
    case CloseReady => 0
    case Arrive(k) => if k > 0 then k - 1 else 0
    case Waiting(k, g) => if g < gen then k else if k > 0 then k - 1 else 0
    case GateWait => 1
    case GateOpen => 1
    case Loop(_) => 2
    case Publish => 3
    case PublishAgain => 3
    case AwaitSearchable => 3
    case WantLock => 5
    case Writing => 5
    case Releasing(_) => 5
    case Dying => 5
    case Done => 5
  }

  ghost predicate LegalPc(su: Setup, c: nat, p: Pc)
  {
    match p
    case CountReady => !su.Busy(c)
    case CloseReady => !su.Busy(c)
    case Arrive(k) => 1 <= k <= 5
    case Waiting(k, g) => 1 <= k <= 5 && g == k - 1
    case GateWait => su.Busy(c) && su.marker
    case GateOpen => su.Busy(c) && su.marker && c == 0
    case Loop(_) => su.Busy(c)
    case Publish => su.Busy(c) && c == 0
    case PublishAgain => su.Busy(c) && c == 0
    case WantLock => su.Busy(c)
    case Writing => su.Busy(c)
    case Releasing(_) => su.Busy(c)
    case Dying => su.Busy(c)
    case _ => true
  }

  ghost function Waiters(s: State): set<nat>
  {
    set c: nat | c < |s.pc| && s.pc[c].Waiting? && s.pc[c].g == s.barrier.gen
  }

  /** Every client is past exactly as many waits as the barrier has had generations. */
  ghost predicate InStep(su: Setup, s: State)
  {
    && |s.pc| == su.N() > 0
    && (forall c :: 0 <= c < |s.pc| ==> LegalPc(su, c, s.pc[c]) && Passed(s.pc[c], s.barrier.gen) == s.barrier.gen)
  }

  /** The barrier's count is the number of clients still missing from the generation. */
  ghost predicate BarrierInv(su: Setup, s: State)
  {
    && InStep(su, s)
    && s.barrier.n == su.N()
    && s.barrier.Valid()
    && s.barrier.count + |Waiters(s)| == s.barrier.n
  }

  predicate PastGate(p: Pc)
  {
    match p
    case Start => false
    case CountReady => false
    case CloseReady => false
    case Arrive(k) => k >= 2
    case Waiting(k, _) => k >= 2
    case GateWait => false
    case GateOpen => false
    case _ => true
  }

  /** With the marker nobody with rows is past the gate before it is open, and rank 0 opens it. */
  ghost predicate GateInv(su: Setup, s: State)
  {
    && (su.marker ==> forall c: nat :: c < |s.pc| && su.Busy(c) && PastGate(s.pc[c]) ==> s.gate.isOpen)
    && (s.gate.isOpen ==> |s.pc| > 0 && su.Busy(0) && PastGate(s.pc[0]))
  }

  predicate PastPublish(p: Pc)
  {
    match p
    case Arrive(k) => k >= 4
    case Waiting(k, _) => k >= 4
    case AwaitSearchable => true
    case WantLock => true
    case Writing => true
    case Releasing(_) => true
    case Dying => true
    case Done => true
    case _ => false
  }

  /** Clients without rows that have been counted ready. */
  ghost function Counted(su: Setup, s: State): set<nat>
  {
    set c: nat | c < |s.pc| && !su.Busy(c) && s.pc[c] != Start && s.pc[c] != CountReady
  }

  /** The channel is closed by rank 0 after the third wait when there are rows, and by the
      last client to be counted when there are none; never twice. A query sweep does not wait
      for quiescence, so there rank 0 closes it in its last step before the channel. */
  ghost predicate SearchInv(su: Setup, s: State)
  {
    && |s.pc| > 0
    && s.timing.expected == su.N()
    && s.timing.closes <= 1
    && s.timing.ready == |Counted(su, s)|
    && (su.Busy(0) ==>
          && (s.timing.Closed() ==> s.pc[0] == PublishAgain || PastPublish(s.pc[0]))
          && (PastPublish(s.pc[0]) ==> s.timing.Closed())
          && (su.mode == Query && s.timing.Closed() ==> PastPublish(s.pc[0])))
    && (!su.Busy(0) ==>
          && (s.timing.Closed() ==> s.timing.AllReady())
          && (s.timing.AllReady() ==> s.timing.Closed() || exists c :: 0 <= c < |s.pc| && s.pc[c] == CloseReady))
    && (forall c :: 0 <= c < |s.pc| && s.pc[c] == CloseReady ==> s.timing.AllReady())
  }

  predicate Holds(p: Pc)
  {
    p == Writing || p.Releasing?
  }

  /** At most one client holds the writer, none before rank 0 is through; without rows rank 0
      gives way as soon as it starts, and does so in an insert sweep only. */
  ghost predicate WriterInv(su: Setup, s: State)
  {
    && |s.pc| > 0
    && (s.writer.active <==> exists c :: 0 <= c < |s.pc| && Holds(s.pc[c]))
    && (forall c, d :: 0 <= c < |s.pc| && 0 <= d < |s.pc| && Holds(s.pc[c]) && Holds(s.pc[d]) ==> c == d)
    && (su.Busy(0) ==>
          && (s.writer.rankZeroFinished <==> Ended(s.pc[0]))
          && (forall c :: 1 <= c < |s.pc| && Holds(s.pc[c]) ==> s.writer.rankZeroFinished))
    && (!su.Busy(0) ==> (s.writer.rankZeroFinished <==> su.mode == Insert && s.pc[0] != Start))
  }

  /** Has the client appended, with or without an error? */
  predicate Appended(p: Pc)
  {
    p.Releasing? || Ended(p)
  }

  /** Has its append failed? */
  predicate Failed(p: Pc)
  {
    p == Releasing(true) || p == Dying
  }

  /** No line of the timing file twice, and the header nowhere but in front. */
  ghost predicate CsvShape(lines: seq<Line>)
  {
    && (forall i :: 1 <= i < |lines| ==> lines[i].Record?)
    && (forall i, j :: 0 <= i < j < |lines| ==> lines[i] != lines[j])
  }

  /** The header and rank 0's record come first. */
  predicate Headed(lines: seq<Line>)
  {
    lines != [] ==> |lines| >= 2 && lines[0] == Header && lines[1] == Record(0)
  }

  /** Nothing is written before rank 0 appends; unless that append fails its two lines come
      first. Who appended without an error has its record in the file, and nobody has one
      without having appended. */
  ghost predicate CsvInv(su: Setup, s: State)
  {
    && |s.pc| > 0
    && CsvShape(s.csv.lines)
    && (!su.Busy(0) || !Appended(s.pc[0]) ==> s.csv == CsvState(false, []))
    && (su.Busy(0) && Appended(s.pc[0]) && !Failed(s.pc[0]) ==> s.csv.lines != [])
    && (!Failed(s.pc[0]) ==> Headed(s.csv.lines))
    && (forall r: nat :: Record(r) in s.csv.lines ==> r < |s.pc| && su.Busy(r) && Appended(s.pc[r]))
    && (forall r: nat :: r < |s.pc| && su.Busy(r) && Appended(s.pc[r]) && !Failed(s.pc[r]) ==>
          Record(r) in s.csv.lines)
  }

  ghost predicate Inv(su: Setup, s: State)
  {
    BarrierInv(su, s) && GateInv(su, s) && SearchInv(su, s) && WriterInv(su, s) && CsvInv(su, s)
  }
}
