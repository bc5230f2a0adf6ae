/** What the runs of the batch-client protocol do: every client goes through all its batches
    before anybody takes the collection for searchable, what the timing file holds, why rank 0
    must have rows, and the sweep that is really started. */
module BatchSafety {
  import opened RowPartition
  import opened Coordination
  import opened BatchProtocol
  import opened BatchProofs
  import opened BatchRuns

  // ------------------------------------------------------------- the work loops

  predicate PastLoop(p: Pc)
  {
    match p
    case Arrive(k) => k >= 3
    case Waiting(k, _) => k >= 3
    case Publish => true
    case PublishAgain => true
    case _ => PastPublish(p)
  }

  /** By state `i` of the run the client has been at the head of its loop with this counter,
      where it sends the rows from it on. */
  ghost predicate Reached(run: seq<State>, i: nat, c: nat, x: nat)
  {
    exists j: nat :: j <= i && j < |run| && c < |run[j].pc| && run[j].pc[c] == Loop(x)
  }

  /** It has been there with every multiple of the batch size below its row count. */
  ghost predicate AllSent(su: Setup, run: seq<State>, i: nat, c: nat)
    requires su.batch > 0
  {
    forall x: nat :: x < su.LocalRows(c) && x % su.batch == 0 ==> Reached(run, i, c, x)
  }

  ghost predicate EverybodySent(su: Setup, run: seq<State>)
    requires su.batch > 0 && run != []
  {
    var last := |run| - 1;
    forall c: nat :: c < su.N() ==> AllSent(su, run, last, c)
  }

  /** How far a client with rows is. */
  ghost predicate Progress(su: Setup, run: seq<State>, i: nat, c: nat)
    requires su.batch > 0 && i < |run| && c < |run[i].pc|
  {
    match run[i].pc[c]
    case Loop(x) =>
      && x % su.batch == 0
      && (forall y: nat :: y <= x && y % su.batch == 0 ==> Reached(run, i, c, y))
    case p => PastLoop(p) ==> AllSent(su, run, i, c)
  }

  lemma NextMultiple(x: nat, y: nat, b: nat)
    requires b > 0 && x % b == 0
    ensures (x + b) % b == 0
    ensures x < y <= x + b && y % b == 0 ==> y == x + b
  {
    var q := x / b;
    assert x == b * q;
    DivModUnique(x + b, b, q + 1, 0);
    if x < y < x + b {
      DivModUnique(y, b, q, y - x);
    }
  }

  /** What a step does to a client with rows, told by its loop counter. */
  lemma LoopMove(su: Setup, s: State, c: nat, q: Luck)
    requires su.Sound() && c < |s.pc| && s.barrier.count > 0 && su.Busy(c) && LegalPc(su, c, s.pc[c])
    ensures
      var t := Advance(su, s, c, q);
      && t.pc == s.pc[c := t.pc[c]]
      && (s.pc[c].Loop? ==>
            t.pc[c] == if s.pc[c].i < su.LocalRows(c) then Loop(s.pc[c].i + su.batch) else Arrive(3))
      && (!s.pc[c].Loop? && t.pc[c].Loop? ==> t.pc[c] == Loop(0) && !PastLoop(s.pc[c]))
      && (!s.pc[c].Loop? && PastLoop(t.pc[c]) ==> PastLoop(s.pc[c]))
  {
    hide Setup.LocalRows;
  }

  lemma StillReached(run: seq<State>, i: nat, j: nat, c: nat)
    requires i <= j
    ensures forall x: nat :: Reached(run, i, c, x) ==> Reached(run, j, c, x)
  {
  }

  /** A step of another client, or a death, changes nothing. */
  lemma ProgressKept(su: Setup, run: seq<State>, i: nat, c: nat)
    requires su.batch > 0 && i + 1 < |run| && c < |run[i].pc| == |run[i + 1].pc| && Progress(su, run, i, c)
    requires run[i + 1].pc[c] == run[i].pc[c]
    ensures Progress(su, run, i + 1, c)
  {
    StillReached(run, i, i + 1, c);
    hide PastLoop, Reached;
  }

  lemma ProgressMade(su: Setup, run: seq<State>, i: nat, c: nat, q: Luck)
    requires su.Sound() && i + 1 < |run| && c < |run[i].pc| && su.Busy(c) && Progress(su, run, i, c)
    requires run[i].barrier.count > 0 && LegalPc(su, c, run[i].pc[c])
    requires run[i + 1] == Advance(su, run[i], c, q)
    ensures Progress(su, run, i + 1, c)
  {
    var s, t := run[i], run[i + 1];
    LoopMove(su, s, c, q);
    StillReached(run, i, i + 1, c);
    hide Advance, LegalPc, Setup.Busy, Setup.LocalRows, PastPublish;
    if t.pc[c].Loop? {
      var z := t.pc[c].i;
      assert Reached(run, i + 1, c, z);
      if s.pc[c].Loop? {
        forall y: nat | y <= z && y % su.batch == 0
          ensures Reached(run, i + 1, c, y)
        {
          NextMultiple(s.pc[c].i, y, su.batch);
        }
        NextMultiple(s.pc[c].i, z, su.batch);
      }
    }
  }

  lemma {:induction false} ClientProgress(su: Setup, run: seq<State>, i: nat, c: nat)
    requires su.Valid() && Run(su, run) && i < |run| && c < su.N() && su.Busy(c)
    ensures |run[i].pc| == su.N() && Progress(su, run, i, c)
  {
    RunKeepsInv(su, run, i);
    CountPositive(su, run[i]);
    if i > 0 {
      ClientProgress(su, run, i - 1, c);
      var s, t := run[i - 1], run[i];
      RunKeepsInv(su, run, i - 1);
      CountPositive(su, s);
      assert LegalPc(su, c, s.pc[c]);
      assert Step(su, s, t);
      hide Run, Inv, Progress, LegalPc, Setup.Busy, Setup.Valid, Enabled;
      var e, q :| 0 <= e < |s.pc| && MoveOf(su, s, t, e, q);
      if t == s.(fatal := true) {
        ProgressKept(su, run, i - 1, c);
      } else if e == c {
        ProgressMade(su, run, i - 1, c, q);
      } else {
        OthersStay(su, s, e, q);
        hide Advance;
        ProgressKept(su, run, i - 1, c);
      }
    }
  }

  lemma OthersStay(su: Setup, s: State, c: nat, q: Luck)
    requires c < |s.pc| && s.barrier.count > 0
    ensures Advance(su, s, c, q).pc == s.pc[c := Advance(su, s, c, q).pc[c]]
  {
    hide Setup.Busy, Setup.LocalRows, After;
  }

  /** The steps of a client with rows in its loop: on to the next batch as long as the counter is
      below its rows, and only then out of it. */
  lemma LoopSteps(su: Setup, run: seq<State>, i: nat, c: nat)
    requires su.Valid() && Run(su, run) && i + 1 < |run| && c < su.N() && su.Busy(c)
    requires |run[i].pc| == su.N() && run[i].pc[c].Loop?
    ensures |run[i + 1].pc| == su.N()
    ensures
      var x, next := run[i].pc[c].i, run[i + 1].pc[c];
      next == Loop(x) || next == if x < su.local[c] then Loop(x + su.batch) else Arrive(3)
  {
    var s, t := run[i], run[i + 1];
    RunKeepsInv(su, run, i);
    CountPositive(su, s);
    assert LegalPc(su, c, s.pc[c]);
    assert Step(su, s, t);
    hide Run, Inv, LegalPc, Enabled;
    var e, q :| 0 <= e < |s.pc| && MoveOf(su, s, t, e, q);
    OthersStay(su, s, e, q);
    if t != s.(fatal := true) && e == c {
      LoopMove(su, s, c, q);
    }
    hide Advance;
  }

  lemma StepOfOne(su: Setup, run: seq<State>, i: nat, c: nat)
    requires su.Valid() && Run(su, run) && i + 1 < |run| && c < su.N()
    ensures |run[i].pc| == su.N() == |run[i + 1].pc|
    ensures run[i + 1].pc[c] == run[i].pc[c]
        || Remaining(su, c, run[i + 1].pc[c]) < Remaining(su, c, run[i].pc[c])
  {
    var s, t := run[i], run[i + 1];
    RunKeepsInv(su, run, i);
    CountPositive(su, s);
    assert LegalPc(su, c, s.pc[c]);
    assert Step(su, s, t);
    hide Run, Inv, LegalPc, Enabled, Remaining, Setup.Busy;
    var e, q :| 0 <= e < |s.pc| && MoveOf(su, s, t, e, q);
    OthersStay(su, s, e, q);
    if t != s.(fatal := true) && e == c {
      AdvanceSpends(su, s, c, q);
    }
    hide Advance;
  }

  lemma {:induction false} NeverBack(su: Setup, run: seq<State>, i: nat, j: nat, c: nat)
    requires su.Valid() && Run(su, run) && i <= j < |run| && c < su.N()
    ensures |run[i].pc| == su.N() == |run[j].pc|
    ensures run[j].pc[c] == run[i].pc[c] || Remaining(su, c, run[j].pc[c]) < Remaining(su, c, run[i].pc[c])
  {
    hide *;
    RunKeepsInv(su, run, i);
    CountPositive(su, run[i]);
    if i < j {
      NeverBack(su, run, i, j - 1, c);
      StepOfOne(su, run, j - 1, c);
    }
  }

  /** No batch is sent twice: once a client has left a point it is never there again. */
  lemma SentOnce(su: Setup, run: seq<State>, i: nat, j: nat, k: nat, c: nat)
    requires su.Valid() && Run(su, run) && i <= j <= k < |run| && c < su.N()
    ensures |run[i].pc| == |run[j].pc| == |run[k].pc| == su.N()
    ensures run[i].pc[c] == run[k].pc[c] ==> run[j].pc[c] == run[i].pc[c]
  {
    hide Remaining, Run;
    NeverBack(su, run, i, j, c);
    NeverBack(su, run, j, k, c);
  }

  /** Every row of a client that is past its loop was in a batch that it sent, and in one only. */
  lemma EveryRowSent(su: Setup, run: seq<State>, i: nat, c: nat, row: nat) returns (x: nat)
    requires su.Valid() && Run(su, run) && i < |run| && c < su.N() && |run[i].pc| == su.N()
    requires PastLoop(run[i].pc[c]) && row < su.local[c]
    ensures Reached(run, i, c, x) && x <= row < x + su.batch
    ensures forall y: nat :: Reached(run, i, c, y) && y <= row < y + su.batch ==> y == x
  {
    ClientProgress(su, run, i, c);
    x := row - row % su.batch;
    BatchOf(row, su.batch);
    forall y: nat | Reached(run, i, c, y) && y <= row < y + su.batch
      ensures y == x
    {
      var j: nat :| j <= i && j < |run| && c < |run[j].pc| && run[j].pc[c] == Loop(y);
      ClientProgress(su, run, j, c);
      hide Run;
      SameBatch(row, y, su.batch);
    }
  }

  lemma BatchOf(row: nat, b: nat)
    requires b > 0
    ensures row % b <= row < row - row % b + b && (row - row % b) % b == 0
  {
    assert row == b * (row / b) + row % b;
    assert row % b <= row by {
      assert b * (row / b) >= 0;
    }
    DivModUnique(row - row % b, b, row / b, 0);
  }

  lemma SameBatch(row: nat, y: nat, b: nat)
    requires b > 0 && y % b == 0 && y <= row < y + b
    ensures y == row - row % b
  {
    assert y == b * (y / b);
    DivModUnique(row, b, y / b, row - y);
  }

  // ----------------------------------------------------------------- safety

  /** The number of barrier waits a client has returned from. */
  function Returned(p: Pc): nat
  {
    match p
    case Waiting(k, _) => if k > 0 then k - 1 else 0
    case _ => Passed(p, 0)
  }

  predicate PastSearchable(p: Pc)
  {
    PastPublish(p) && p != AwaitSearchable
  }

  lemma CloseTogether(su: Setup, s: State, c: nat, d: nat)
    requires su.Valid() && InStep(su, s) && c < |s.pc| && d < |s.pc|
    ensures Returned(s.pc[c]) <= Returned(s.pc[d]) + 1
  {
    hide Setup.Busy;
    assert LegalPc(su, c, s.pc[c]) && Passed(s.pc[c], s.barrier.gen) == s.barrier.gen;
    assert LegalPc(su, d, s.pc[d]) && Passed(s.pc[d], s.barrier.gen) == s.barrier.gen;
  }

  lemma LoopsFirst(su: Setup, s: State, c: nat, d: nat)
    requires su.Valid() && InStep(su, s) && c < |s.pc| && d < |s.pc| && PastSearchable(s.pc[c])
    ensures PastLoop(s.pc[d])
  {
    hide Setup.Busy;
    assert LegalPc(su, c, s.pc[c]) && Passed(s.pc[c], s.barrier.gen) == s.barrier.gen;
    assert LegalPc(su, d, s.pc[d]) && Passed(s.pc[d], s.barrier.gen) == s.barrier.gen;
  }

  /** In every state of every run: nobody is more than one barrier wait ahead of anybody; before
      anybody is past the searchable channel everybody is out of its work loop, having sent all
      its batches; with the marker nobody with rows is past the gate before rank 0 has opened it;
      the channel has been closed at most once, and at most one client is writing. */
  lemma RunSafety(su: Setup, run: seq<State>, i: nat, c: nat, d: nat)
    requires su.Valid() && Run(su, run) && i < |run| && c < su.N() && d < su.N()
    ensures
      var s := run[i];
      && |s.pc| == su.N()
      && Returned(s.pc[c]) <= Returned(s.pc[d]) + 1
      && (PastSearchable(s.pc[c]) ==> PastLoop(s.pc[d]) && AllSent(su, run, i, d))
      && (su.marker && su.Busy(c) && PastGate(s.pc[c]) ==> s.gate.isOpen && su.Busy(0) && PastGate(s.pc[0]))
      && s.timing.closes <= 1
      && (Holds(s.pc[c]) && Holds(s.pc[d]) ==> c == d)
  {
    hide Returned, PastLoop, PastSearchable, Setup.Busy, Holds, PastGate, AllSent, Progress;
    var s := run[i];
    RunKeepsInv(su, run, i);
    CountPositive(su, s);
    LoopSends(su, run, i, d);
    hide Run, LegalPc;
    CloseTogether(su, s, c, d);
    if PastSearchable(s.pc[c]) {
      LoopsFirst(su, s, c, d);
    }
  }

  /** In every state of every run: with rows the channel is closed from rank 0's last step before
      it on, and one step earlier at most when the sweep has waited for quiescence, which a query
      sweep does not; without rows rank 0 has given way to the other writers from its first step
      on in an insert sweep, and in no other sweep at all. */
  lemma WhoOpens(su: Setup, run: seq<State>, i: nat)
    requires su.Valid() && Run(su, run) && i < |run|
    ensures
      var s := run[i];
      && |s.pc| == su.N()
      && (su.Busy(0) ==>
            && (PastPublish(s.pc[0]) ==> s.timing.closes == 1)
            && (s.timing.closes > 0 ==> PastPublish(s.pc[0]) || (s.pc[0] == PublishAgain && su.mode != Query)))
      && (!su.Busy(0) ==> (s.writer.rankZeroFinished <==> su.mode == Insert && s.pc[0] != Start))
  {
    RunKeepsInv(su, run, i);
    CountPositive(su, run[i]);
    hide Run, PastPublish, Setup.Busy, BarrierInv, GateInv, CsvInv;
  }

  /** Past its loop a client has sent all its batches; one without rows has none. */
  lemma LoopSends(su: Setup, run: seq<State>, i: nat, d: nat)
    requires su.Valid() && Run(su, run) && i < |run| && d < su.N()
    ensures |run[i].pc| == su.N() && (PastLoop(run[i].pc[d]) ==> AllSent(su, run, i, d))
  {
    RunKeepsInv(su, run, i);
    CountPositive(su, run[i]);
    hide Inv;
    if su.Busy(d) {
      ClientProgress(su, run, i, d);
    }
    hide Run;
  }

  /** Nobody holds the writer before rank 0 has let go of it. */
  lemma RankZeroWritesFirst(su: Setup, run: seq<State>, i: nat, c: nat)
    requires su.Valid() && Run(su, run) && i < |run| && 0 < c < su.N()
    ensures |run[i].pc| == su.N() && (Holds(run[i].pc[c]) ==> Ended(run[i].pc[0]))
  {
    hide Setup.Busy;
    var s := run[i];
    RunKeepsInv(su, run, i);
    CountPositive(su, s);
    hide Run;
    if Holds(s.pc[c]) {
      assert su.Busy(c) by { assert LegalPc(su, c, s.pc[c]); }
      BusyMeansRankZeroBusy(su, c);
    }
  }

  /** A completed run: every client sent all its batches and made the same five waits, the channel was closed exactly
      once, and the timing file is empty when nobody had rows, and otherwise the header,
      rank 0's record and one record of every other client with rows. */
  lemma CompletedRun(su: Setup, run: seq<State>)
    requires su.Valid() && Run(su, run) && AllDone(run[|run| - 1])
    ensures
      var s := run[|run| - 1];
      && s.barrier.gen == 5
      && s.timing.closes == 1
      && (s.csv.lines == [] <==> !su.Busy(0))
      && Headed(s.csv.lines)
      && (forall j :: 1 <= j < |s.csv.lines| ==> s.csv.lines[j].Record?)
      && (forall j, k :: 0 <= j < k < |s.csv.lines| ==> s.csv.lines[j] != s.csv.lines[k])
      && (forall r: nat :: Record(r) in s.csv.lines <==> r < su.N() && su.Busy(r))
      && EverybodySent(su, run)
  {
    hide Setup.Busy, AllSent;
    var s := run[|run| - 1];
    RunKeepsInv(su, run, |run| - 1);
    CountPositive(su, s);
    var last := |run| - 1;
    forall c: nat | c < su.N()
      ensures AllSent(su, run, last, c)
    {
      LoopSends(su, run, last, c);
    }
    hide Run;
    assert s.pc[0] == Done && Passed(s.pc[0], s.barrier.gen) == s.barrier.gen;
    if !su.Busy(0) {
      ChannelClosed(su, s);
    }
    CompletedFile(su, s);
  }

  lemma CompletedFile(su: Setup, s: State)
    requires su.Valid() && Inv(su, s) && |s.pc| == su.N() && AllDone(s)
    ensures CsvShape(s.csv.lines) && Headed(s.csv.lines)
    ensures s.csv.lines == [] <==> !su.Busy(0)
    ensures forall r: nat :: Record(r) in s.csv.lines <==> r < su.N() && su.Busy(r)
  {
    hide Setup.Busy, BarrierInv, GateInv, SearchInv, WriterInv, CsvShape, Headed;
    assert s.pc[0] == Done;
    forall r: nat
      ensures Record(r) in s.csv.lines <==> r < su.N() && su.Busy(r)
    {
      if r < su.N() {
        assert s.pc[r] == Done;
      }
    }
  }

  /** The file in every state of every run: no line twice and the header nowhere but in front;
      the records are those of clients that have appended, and all of them that did so without
      an error; and the header and rank 0's record come first unless rank 0's append failed. */
  lemma FileOfEveryState(su: Setup, run: seq<State>, i: nat)
    requires su.Valid() && Run(su, run) && i < |run|
    ensures
      var s := run[i];
      && |s.pc| == su.N() > 0 && CsvShape(s.csv.lines)
      && (!Headed(s.csv.lines) ==> Failed(s.pc[0]))
      && (forall r: nat :: Record(r) in s.csv.lines ==> r < su.N() && su.Busy(r) && Appended(s.pc[r]))
      && (forall r: nat :: r < su.N() && su.Busy(r) && Appended(s.pc[r]) && !Failed(s.pc[r]) ==>
            Record(r) in s.csv.lines)
  {
    RunKeepsInv(su, run, i);
    CountPositive(su, run[i]);
    hide Run, CsvShape, Headed, BarrierInv, GateInv, SearchInv, WriterInv, Setup.Busy, Appended, Failed;
  }

  /** Rank 0 has not appended yet, and another client has not got the writer. */
  predicate StillBefore(s: State, c: nat)
    requires 0 < c < |s.pc|
  {
    !Appended(s.pc[0]) && !Holds(s.pc[c]) && !Ended(s.pc[c])
  }

  /** Until rank 0 writes and the other client wants to, somebody else can move. */
  lemma SomebodyElseMoves(su: Setup, s: State, c: nat) returns (e: nat)
    requires su.Valid() && Inv(su, s) && 0 < c < |s.pc| && su.Busy(c) && StillBefore(s, c)
    requires !(s.pc[0] == Writing && s.pc[c] == WantLock)
    ensures e < |s.pc| && Enabled(su, s, e)
    ensures !(e == 0 && s.pc[e] == Writing) && !(e == c && s.pc[e] == WantLock)
  {
    hide Setup.Busy;
    assert InStep(su, s) && WriterInv(su, s);
    BusyMeansRankZeroBusy(su, c);
    assert !Ended(s.pc[0]);
    e := SomebodyMoves(su, s);
    hide Inv, BarrierInv, GateInv, SearchInv, CsvInv;
    if e == 0 && s.pc[0] == Writing {
      e := c;
      assert LegalPc(su, 0, s.pc[0]) && Passed(s.pc[0], s.barrier.gen) == s.barrier.gen;
      assert LegalPc(su, c, s.pc[c]) && Passed(s.pc[c], s.barrier.gen) == s.barrier.gen;
    }
  }

  lemma StillBeforeAfter(su: Setup, s: State, c: nat, e: nat, q: Luck)
    requires su.Sound() && InStep(su, s) && 0 < c < |s.pc| && su.Busy(c) && su.Busy(0) && StillBefore(s, c)
    requires e < |s.pc| && s.barrier.count > 0 && Enabled(su, s, e)
    requires !(e == 0 && s.pc[e] == Writing) && !(e == c && s.pc[e] == WantLock)
    ensures |Advance(su, s, e, q).pc| == |s.pc| && StillBefore(Advance(su, s, e, q), c)
  {
    assert LegalPc(su, e, s.pc[e]);
    hide Setup.Busy, Setup.LocalRows, After, InStep;
    if (s.pc[e].Arrive? || s.pc[e].Waiting?) && su.Busy(e) {
      AfterBefore(su, e, s.pc[e].k);
    }
  }

  lemma AfterBefore(su: Setup, e: nat, k: nat)
    requires 1 <= k <= 5 && su.Busy(e)
    ensures !Appended(After(su, e, k)) && !Holds(After(su, e, k))
  {
    hide Setup.Busy;
  }

  /** Every such run can go on to where rank 0 is about to append and the other waits to. */
  lemma {:induction false} RaceReached(su: Setup, run: seq<State>, c: nat) returns (longer: seq<State>)
    requires su.Valid() && Run(su, run) && 0 < c < |run[|run| - 1].pc| && su.Busy(c)
    requires !run[|run| - 1].fatal && StillBefore(run[|run| - 1], c)
    ensures Run(su, longer)
    ensures
      var s := longer[|longer| - 1];
      !s.fatal && |s.pc| == su.N() && s.pc[0] == Writing && s.pc[c] == WantLock
    decreases Left(su, run[|run| - 1])
  {
    var s := run[|run| - 1];
    RunKeepsInv(su, run, |run| - 1);
    CountPositive(su, s);
    if s.pc[0] == Writing && s.pc[c] == WantLock {
      longer := run;
    } else {
      var e := SomebodyElseMoves(su, s, c);
      var luck := Luck(true, NoFault);
      var t := Advance(su, s, e, luck);
      assert InStep(su, s);
      hide Inv, Advance, Enabled, Setup.Busy, Left, BarrierInv;
      BusyMeansRankZeroBusy(su, c);
      StillBeforeAfter(su, s, c, e, luck);
      AdvanceLives(su, s, e, luck);
      Stepped(su, s, t, e, luck);
      RunExtends(su, run, t);
      StepSpends(su, s, t);
      hide Run, Step, StillBefore;
      longer := RaceReached(su, run + [t], c);
    }
  }

  /** The writer is let go of before an error ends the process. So whenever rank 0 and another
      client have rows, there is a run in which rank 0 fails to append and the other's record
      is the whole file. */
  lemma HeaderMayBeMissing(su: Setup, c: nat) returns (run: seq<State>)
    requires su.Valid() && 0 < c < su.N() && su.Busy(c)
    ensures Run(su, run)
    ensures
      var s := run[|run| - 1];
      !s.fatal && s.csv.lines == [Record(c)]
  {
    InitInv(su);
    assert Run(su, [Init(su)]);
    run := RaceReached(su, [Init(su)], c);
    var s := run[|run| - 1];
    RunKeepsInv(su, run, |run| - 1);
    CountPositive(su, s);
    NothingWritten(su, s);
    hide Inv, Advance, Enabled;
    var s1, s2, s3, s4 := HeaderlessSteps(su, s, c);
    RunExtends(su, run, s1);
    RunExtends(su, run + [s1], s2);
    RunExtends(su, run + [s1] + [s2], s3);
    RunExtends(su, run + [s1] + [s2] + [s3], s4);
    hide Run, Step;
    run := run + [s1] + [s2] + [s3] + [s4];
  }

  lemma RunExtends(su: Setup, run: seq<State>, t: State)
    requires Run(su, run) && Step(su, run[|run| - 1], t)
    ensures Run(su, run + [t])
  {
    hide Step, Init;
  }

  lemma NothingWritten(su: Setup, s: State)
    requires su.Valid() && Inv(su, s) && |s.pc| > 0 && s.pc[0] == Writing
    ensures s.csv == CsvState(false, [])
  {
    hide BarrierInv, GateInv, SearchInv, WriterInv, CsvShape, Headed;
  }

  /** Rank 0 fails to open the file and unlocks; the other client locks and writes. */
  lemma HeaderlessSteps(su: Setup, s: State, c: nat) returns (s1: State, s2: State, s3: State, s4: State)
    requires !s.fatal && s.barrier.count > 0 && 0 < c < |s.pc| && s.csv == CsvState(false, [])
    requires s.pc[0] == Writing && s.pc[c] == WantLock
    ensures Step(su, s, s1) && Step(su, s1, s2) && Step(su, s2, s3) && Step(su, s3, s4)
    ensures !s4.fatal && s4.csv.lines == [Record(c)]
  {
    s1 := s.(pc := s.pc[0 := Releasing(true)]);
    s2 := s1.(pc := s.pc[0 := Dying], writer := s.writer.Unlock(0));
    s3 := s2.(pc := s2.pc[c := Writing], writer := s2.writer.Lock());
    s4 := s3.(pc := s3.pc[c := Releasing(false)], csv := CsvState(false, [Record(c)]));
    Stepped(su, s, s1, 0, Luck(true, NoFile));
    assert s1.pc[0 := Dying] == s2.pc;
    Stepped(su, s1, s2, 0, Luck(true, NoFault));
    Stepped(su, s2, s3, c, Luck(true, NoFault));
    Stepped(su, s3, s4, c, Luck(true, NoFault));
  }

  lemma Stepped(su: Setup, s: State, t: State, c: nat, luck: Luck)
    requires !s.fatal && s.barrier.count > 0 && c < |s.pc| && Enabled(su, s, c) && t == Advance(su, s, c, luck)
    ensures Step(su, s, t)
  {
    hide Advance, Enabled;
    assert MoveOf(su, s, t, c, luck);
  }

  // ------------------------------------------------ why rank 0 must have rows

  /** Nobody is past the channel, which nobody has closed. */
  ghost predicate HeldUp(su: Setup, s: State)
  {
    && BarrierInv(su, s) && SearchInv(su, s) && !s.timing.Closed()
    && (forall c :: 0 <= c < |s.pc| ==> !PastSearchable(s.pc[c]))
  }

  lemma StaysHeldUp(su: Setup, s: State, t: State, d: nat)
    requires su.Sound() && !su.Busy(0) && su.Busy(d) && HeldUp(su, s) && Step(su, s, t)
    ensures HeldUp(su, t)
  {
    hide Setup.Busy;
    var c, q :| 0 <= c < |s.pc| && MoveOf(su, s, t, c, q);
    if Enabled(su, s, c) && t == Advance(su, s, c, q) {
      HeldUpMove(su, s, c, q, d);
    } else {
      assert Waiters(t) == Waiters(s) && Counted(su, t) == Counted(su, s);
    }
  }

  lemma HeldUpMove(su: Setup, s: State, c: nat, q: Luck, d: nat)
    requires su.Sound() && !su.Busy(0) && su.Busy(d) && HeldUp(su, s) && c < |s.pc| && Enabled(su, s, c)
    ensures HeldUp(su, Advance(su, s, c, q))
  {
    var t := Advance(su, s, c, q);
    assert LegalPc(su, c, s.pc[c]);
    NobodyGetsPast(su, s, c, q);
    hide Setup.Busy, Advance, Enabled, LegalPc, PastSearchable, Passed;
    if s.pc[c].Arrive? {
      ArriveKeepsBarrier(su, s, c, q);
    } else {
      OtherKeepsBarrier(su, s, c, q);
    }
    if s.pc[c] == CountReady {
      CountKeepsSearch(su, s, c, q);
    } else if s.pc[c] == CloseReady {
      CloseKeepsSearch(su, s, c, q);
    } else {
      OtherKeepsSearch(su, s, c, q);
    }
    NotAllCounted(su, t, d);
  }

  lemma NobodyGetsPast(su: Setup, s: State, c: nat, q: Luck)
    requires su.Sound() && BarrierInv(su, s) && !s.timing.Closed() && c < |s.pc| && Enabled(su, s, c)
    requires !PastSearchable(s.pc[c])
    ensures Advance(su, s, c, q).pc == s.pc[c := Advance(su, s, c, q).pc[c]]
    ensures !PastSearchable(Advance(su, s, c, q).pc[c])
  {
    assert LegalPc(su, c, s.pc[c]);
    hide Setup.Busy, Setup.LocalRows, After, BarrierInv;
    if s.pc[c].Arrive? || s.pc[c].Waiting? {
      AfterHeldUp(su, c, s.pc[c].k);
    }
  }

  lemma AfterHeldUp(su: Setup, c: nat, k: nat)
    requires 1 <= k <= 3
    ensures !PastSearchable(After(su, c, k))
  {
    hide Setup.Busy;
  }

  lemma {:induction false} RunHeldUp(su: Setup, run: seq<State>, i: nat, d: nat)
    requires su.Sound() && !su.Busy(0) && su.Busy(d) && Run(su, run) && i < |run|
    ensures HeldUp(su, run[i])
  {
    hide HeldUp, Step, Setup.Busy;
    if i == 0 {
      NothingHappened(su, d);
    } else {
      RunHeldUp(su, run, i - 1, d);
      StaysHeldUp(su, run[i - 1], run[i], d);
    }
  }

  lemma NothingHappened(su: Setup, d: nat)
    requires su.Sound() && !su.Busy(0) && su.Busy(d)
    ensures HeldUp(su, Init(su))
  {
    InitInv(su);
    hide Setup.Busy;
  }

  /** The arithmetic of the split is what keeps the clients going: if some client had rows
      and rank 0 had none, every run would come to a stop and none would complete, so the
      clients of any run in which nobody dies would end up waiting for each other. */
  lemma RankZeroMustHaveRows(su: Setup, run: seq<State>, d: nat)
    requires su.Sound() && !su.Busy(0) && su.Busy(d) && Run(su, run)
    ensures !AllDone(run[|run| - 1])
    ensures |run| <= 22 * su.N() + Sum(su.local) + 2
    ensures
      var s := run[|run| - 1];
      !s.fatal && (forall t :: !LivingStep(su, s, t)) ==> Blocked(su, s)
  {
    hide Setup.Busy, SearchInv;
    var s := run[|run| - 1];
    RunHeldUp(su, run, |run| - 1, d);
    assert |s.pc| > 0 && !PastSearchable(s.pc[0]);
    forall j | 0 <= j < |run|
      ensures InStep(su, run[j])
    {
      RunHeldUp(su, run, j, d);
    }
    hide InStep, BarrierInv;
    SpentBudget(su, run);
    if !s.fatal && !Blocked(su, s) {
      EnabledMeansLiving(su, s);
    }
  }

  // ----------------------------------------------------------- what main starts

  /** Rows are split so that rank 0 has some whenever any client has: the sweep that `main`
      starts is one for which all of the above holds, whatever layout, rows and mode. */
  lemma SplitStartsValid(l: Layout, rows: nat, batch: nat, marker: bool, mode: Mode)
    requires l.Valid() && batch > 0
    ensures
      var su := SetupFor(l, rows, batch, marker, mode);
      && su.Valid() && su.N() == l.total && Sum(su.local) == rows
      && (su.Busy(0) <==> rows > 0)
      && (forall c: nat :: c < l.total ==> (su.Busy(c) <==> HasRows(rows, c, l)))
  {
    var su := SetupFor(l, rows, batch, marker, mode);
    RowCountFacts(rows, l);
    forall c: nat | c < l.total
      ensures su.local[c] > 0 <==> HasRows(rows, c, l)
    {
      RowCountMeans(rows, l, c);
    }
    hide RowCounts, HasRows;
  }

  /** The sweep `main` starts never gets stuck, takes at most 22 steps a client and one a row,
      and leaves an empty timing file exactly when there are no rows. */
  lemma SweepCompletes(l: Layout, rows: nat, batch: nat, marker: bool, mode: Mode, run: seq<State>)
    requires l.Valid() && batch > 0 && Run(SetupFor(l, rows, batch, marker, mode), run)
    ensures
      var s := run[|run| - 1];
      && |run| <= 22 * l.total + rows + 2
      && ((exists t :: LivingStep(SetupFor(l, rows, batch, marker, mode), s, t)) <==> !s.fatal && !AllEnded(s))
      && (AllDone(s) ==>
            && (s.csv.lines == [] <==> rows == 0)
            && (forall r: nat :: Record(r) in s.csv.lines <==> r < l.total && HasRows(rows, r, l))
            && EverybodySent(SetupFor(l, rows, batch, marker, mode), run))
  {
    var su := SetupFor(l, rows, batch, marker, mode);
    SplitStartsValid(l, rows, batch, marker, mode);
    hide SetupFor, Run, LivingStep, HasRows, Setup.Busy, Setup.Valid;
    RunsAreBounded(su, run);
    NeverStuck(su, run);
    if AllDone(run[|run| - 1]) {
      CompletedRun(su, run);
    }
  }
}
