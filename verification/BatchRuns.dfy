/** Whole runs of the batch-client protocol: no reachable state is stuck, and every run is
    shorter than a bound in the clients and rows. */
module BatchRuns {
  import opened Basics
  import opened RowPartition
  import opened Coordination
  import opened BatchProtocol
  import opened BatchProofs

  // ------------------------------------------------- every reachable state

  lemma StepKeepsInv(su: Setup, s: State, t: State)
    requires su.Valid() && Inv(su, s) && Step(su, s, t)
    ensures Inv(su, t)
  {
    hide Advance, Enabled, Setup.Busy;
    var c, q :| 0 <= c < |s.pc| && MoveOf(su, s, t, c, q);
    if Enabled(su, s, c) && t == Advance(su, s, c, q) {
      AdvanceKeepsInv(su, s, c, q);
    } else {
      DyingKeepsInv(su, s);
    }
  }

  lemma DyingKeepsInv(su: Setup, s: State)
    requires su.Valid() && Inv(su, s)
    ensures Inv(su, s.(fatal := true))
  {
    hide Setup.Busy, LegalPc, Passed, CsvShape, Headed, PastGate, PastPublish, Appended, Failed, Holds;
    var t := s.(fatal := true);
    assert Waiters(t) == Waiters(s) && Counted(su, t) == Counted(su, s);
  }

  lemma {:induction false} RunKeepsInv(su: Setup, run: seq<State>, i: nat)
    requires su.Valid() && Run(su, run) && i < |run|
    ensures Inv(su, run[i])
  {
    hide Inv, Step;
    if i == 0 {
      InitInv(su);
    } else {
      RunKeepsInv(su, run, i - 1);
      StepKeepsInv(su, run[i - 1], run[i]);
    }
  }

  // ------------------------------------------------------ deadlock freedom

  /** A client not waiting in the current generation can move, or waits elsewhere. */
  lemma BlockedKinds(su: Setup, s: State, d: nat)
    requires su.Valid() && BarrierInv(su, s) && d < |s.pc| && d !in Waiters(s)
    ensures Enabled(su, s, d) || s.pc[d] in {GateWait, AwaitSearchable, WantLock, Dying, Done}
  {
    hide Setup.Busy, LegalPc, Passed;
  }

  lemma GateBlocked(su: Setup, s: State, d: nat)
    requires su.Valid() && InStep(su, s) && GateInv(su, s) && d < |s.pc| && s.pc[d] == GateWait && !Enabled(su, s, d)
    ensures Enabled(su, s, 0)
  {
    hide Setup.Busy;
    BusyMeansRankZeroBusy(su, d);
    assert Passed(s.pc[d], s.barrier.gen) == s.barrier.gen;
    assert LegalPc(su, 0, s.pc[0]) && Passed(s.pc[0], s.barrier.gen) == s.barrier.gen;
  }

  lemma NobodyBusy(su: Setup)
    requires su.Valid()
    ensures su.Busy(0) || forall d: nat :: d < su.N() ==> !su.Busy(d)
  {
    hide Setup.Busy;
    forall d: nat | d < su.N() && su.Busy(d)
      ensures su.Busy(0)
    {
      BusyMeansRankZeroBusy(su, d);
    }
  }

  /** Without rows every client is counted once it is past the first wait, so the last one
      has closed the channel. */
  lemma AllCounted(su: Setup, s: State)
    requires su.Valid() && |s.pc| == su.N() && !su.Busy(0)
    requires forall c: nat :: c < |s.pc| ==> !s.pc[c].Start? && !s.pc[c].CountReady?
    ensures |Counted(su, s)| == su.N()
  {
    hide Setup.Busy;
    NobodyBusy(su);
    assert Counted(su, s) == UpTo(su.N());
  }

  lemma ChannelClosed(su: Setup, s: State)
    requires su.Valid() && InStep(su, s) && SearchInv(su, s) && !su.Busy(0) && s.barrier.gen > 0
    ensures s.timing.Closed()
  {
    hide Setup.Busy;
    forall c: nat | c < |s.pc|
      ensures !s.pc[c].Start? && !s.pc[c].CountReady? && !s.pc[c].CloseReady?
    {
      assert Passed(s.pc[c], s.barrier.gen) == s.barrier.gen;
    }
    AllCounted(su, s);
  }

  /** With rows, the channel opens once rank 0 is past publishing. */
  lemma SearchBlocked(su: Setup, s: State, d: nat)
    requires su.Valid() && InStep(su, s) && SearchInv(su, s) && d < |s.pc| && s.pc[d] == AwaitSearchable
        && !Enabled(su, s, d)
    ensures Enabled(su, s, 0)
  {
    hide Setup.Busy;
    assert Passed(s.pc[d], s.barrier.gen) == s.barrier.gen == 3;
    assert su.Busy(0) by {
      if !su.Busy(0) { ChannelClosed(su, s); }
    }
    assert LegalPc(su, 0, s.pc[0]) && Passed(s.pc[0], s.barrier.gen) == s.barrier.gen;
  }

  lemma LockBlocked(su: Setup, s: State, d: nat) returns (c: nat)
    requires su.Valid() && InStep(su, s) && WriterInv(su, s) && d < |s.pc| && s.pc[d] == WantLock
    ensures c < |s.pc| && Enabled(su, s, c)
  {
    hide Setup.Busy;
    if Enabled(su, s, d) {
      c := d;
    } else if s.writer.active {
      c :| 0 <= c < |s.pc| && Holds(s.pc[c]);
    } else {
      c := 0;
      BusyMeansRankZeroBusy(su, d);
      assert Passed(s.pc[d], s.barrier.gen) == s.barrier.gen == 5;
      assert LegalPc(su, 0, s.pc[0]) && Passed(s.pc[0], s.barrier.gen) == s.barrier.gen;
    }
  }

  /** When somebody is through, everybody else is past the last wait. */
  lemma OthersFinishing(su: Setup, s: State, d: nat, e: nat) returns (c: nat)
    requires su.Valid() && InStep(su, s) && WriterInv(su, s) && d < |s.pc| && Ended(s.pc[d])
    requires e < |s.pc| && !Ended(s.pc[e])
    ensures c < |s.pc| && Enabled(su, s, c)
  {
    hide Setup.Busy;
    assert Passed(s.pc[d], s.barrier.gen) == s.barrier.gen == 5;
    assert LegalPc(su, e, s.pc[e]) && Passed(s.pc[e], s.barrier.gen) == s.barrier.gen;
    if s.pc[e] == WantLock {
      c := LockBlocked(su, s, e);
    } else {
      c := e;
    }
  }

  /** Until everybody is through or dying, somebody can move. */
  lemma SomebodyMoves(su: Setup, s: State) returns (c: nat)
    requires su.Valid() && Inv(su, s) && !AllEnded(s)
    ensures c < |s.pc| && Enabled(su, s, c)
  {
    assert InStep(su, s) && |Waiters(s)| < |s.pc| == su.N();
    hide Enabled, InStep, BarrierInv, GateInv, SearchInv, WriterInv, CsvInv, Waiters;
    c := OneMissing(Waiters(s), su.N());
    BlockedKinds(su, s, c);
    if !Enabled(su, s, c) {
      assert 0 < |s.pc|;
      if s.pc[c] == GateWait {
        GateBlocked(su, s, c);
        c := 0;
      } else if s.pc[c] == AwaitSearchable {
        SearchBlocked(su, s, c);
        c := 0;
      } else if s.pc[c] == WantLock {
        c := LockBlocked(su, s, c);
      } else {
        var e :| 0 <= e < |s.pc| && !Ended(s.pc[e]);
        c := OthersFinishing(su, s, c, e);
      }
    }
  }

  lemma AdvanceLives(su: Setup, s: State, c: nat, q: Luck)
    requires c < |s.pc| && s.barrier.count > 0
    ensures Advance(su, s, c, q).fatal == s.fatal
  {
  }

  lemma EnabledMeansLiving(su: Setup, s: State)
    requires !s.fatal && s.barrier.count > 0 && !Blocked(su, s)
    ensures exists t :: LivingStep(su, s, t)
  {
    hide Advance, Enabled;
    var c :| 0 <= c < |s.pc| && Enabled(su, s, c);
    var luck := Luck(true, NoFault);
    AdvanceLives(su, s, c, luck);
    assert MoveOf(su, s, Advance(su, s, c, luck), c, luck);
    assert LivingStep(su, s, Advance(su, s, c, luck));
  }

  lemma EndedMeansNoStep(su: Setup, s: State, t: State)
    ensures LivingStep(su, s, t) ==> !s.fatal && !AllEnded(s)
    ensures Step(su, s, t) ==> !s.fatal && !AllDone(s)
  {
    if Step(su, s, t) {
      var c, luck :| 0 <= c < |s.pc| && MoveOf(su, s, t, c, luck);
      hide Advance;
      assert s.pc[c] != Done;
      if !t.fatal {
        assert !Ended(s.pc[c]);
      }
    }
  }

  lemma NotDone(s: State)
    requires !AllEnded(s)
    ensures !AllDone(s)
  {
  }

  lemma DyingStep(su: Setup, s: State)
    requires !s.fatal && s.barrier.count > 0 && AllEnded(s) && !AllDone(s)
    ensures Step(su, s, s.(fatal := true))
  {
    hide Advance;
    var c :| 0 <= c < |s.pc| && s.pc[c] != Done;
    assert Ended(s.pc[c]);
    assert MoveOf(su, s, s.(fatal := true), c, Luck(true, NoFault));
  }

  /** A run can go on, with the process living, exactly until the process has died or every
      client is through or dying; and until all are through it can go on or die. A reachable
      state in which the clients wait for each other for ever would break the first, so there
      is none. */
  lemma NeverStuck(su: Setup, run: seq<State>)
    requires su.Valid() && Run(su, run)
    ensures
      var s := run[|run| - 1];
      && ((exists t :: LivingStep(su, s, t)) <==> !s.fatal && !AllEnded(s))
      && ((exists t :: Step(su, s, t)) <==> !s.fatal && !AllDone(s))
  {
    assert |run| > 0;
    hide Setup.Busy, Inv, Step, Run, AllEnded, AllDone;
    var s := run[|run| - 1];
    RunKeepsInv(su, run, |run| - 1);
    CountPositive(su, s);
    forall t
      ensures LivingStep(su, s, t) ==> !s.fatal && !AllEnded(s)
      ensures Step(su, s, t) ==> !s.fatal && !AllDone(s)
    {
      EndedMeansNoStep(su, s, t);
    }
    if !s.fatal && !AllEnded(s) {
      var c := SomebodyMoves(su, s);
      EnabledMeansLiving(su, s);
      NotDone(s);
    } else if !s.fatal && !AllDone(s) {
      DyingStep(su, s);
    }
  }

  /** A run in which the process has not died and nobody can go on has ended with every client
      through, except those that end the process after a failed append. */
  lemma StopsOnlyDone(su: Setup, run: seq<State>)
    requires su.Valid() && Run(su, run) && !run[|run| - 1].fatal && Blocked(su, run[|run| - 1])
    ensures AllEnded(run[|run| - 1])
  {
    var s := run[|run| - 1];
    RunKeepsInv(su, run, |run| - 1);
    if !AllEnded(s) {
      var c := SomebodyMoves(su, s);
    }
  }

  lemma CountPositive(su: Setup, s: State)
    requires su.Valid() && Inv(su, s)
    ensures s.barrier.count > 0 && |s.pc| == su.N()
  {
    hide Setup.Busy;
  }

  // ------------------------------------------------------------ termination

  function BeforeWait(k: nat, rows: nat): nat
  {
    if k <= 1 then 18 + rows
    else if k == 2 then 14 + rows
    else if k == 3 then 11
    else if k == 4 then 6
    else 4
  }

  /** A bound on the steps client `c` still takes from point `p`. */
  function Remaining(su: Setup, c: nat, p: Pc): nat
  {
    var rows := su.LocalRows(c);
    match p
    case Start => 22 + rows
    case CountReady => 21 + rows
    case CloseReady => 20 + rows
    case Arrive(k) => BeforeWait(k, rows) + 1
    case Waiting(k, _) => BeforeWait(k, rows)
    case GateWait => 17 + rows
    case GateOpen => 16 + rows
    case Loop(i) => 13 + (if i < rows then rows - i else 0)
    case Publish => 10
    case PublishAgain => 9
    case AwaitSearchable => 8
    case WantLock => 3
    case Writing => 2
    case Releasing(_) => 1
    case Dying => 0
    case Done => 0
  }

  function Costs(su: Setup, pcs: seq<Pc>): seq<nat>
  {
    seq(|pcs|, c requires 0 <= c < |pcs| => Remaining(su, c, pcs[c]))
  }

  lemma AfterSpends(su: Setup, c: nat, k: nat, g: nat)
    requires su.Sound() && 1 <= k <= 5
    ensures Remaining(su, c, After(su, c, k)) < Remaining(su, c, Waiting(k, g)) < Remaining(su, c, Arrive(k))
  {
    hide Setup.Busy, Setup.LocalRows;
  }

  lemma BarrierSpends(su: Setup, s: State, c: nat, q: Luck)
    requires su.Sound() && c < |s.pc| && s.barrier.count > 0 && LegalPc(su, c, s.pc[c])
    requires s.pc[c].Arrive? || s.pc[c].Waiting?
    ensures
      var t := Advance(su, s, c, q);
      t.pc == s.pc[c := t.pc[c]] && Remaining(su, c, t.pc[c]) < Remaining(su, c, s.pc[c])
  {
    hide Setup.Busy, Setup.LocalRows, After, Remaining;
    AfterSpends(su, c, s.pc[c].k, s.barrier.gen);
    if s.pc[c].Waiting? {
      AfterSpends(su, c, s.pc[c].k, s.pc[c].g);
    }
  }

  /** A step away from the barrier. */
  lemma OwnStepSpends(su: Setup, s: State, c: nat, q: Luck)
    requires su.Sound() && c < |s.pc| && s.barrier.count > 0 && !Ended(s.pc[c])
    requires !s.pc[c].Arrive? && !s.pc[c].Waiting?
    ensures
      var t := Advance(su, s, c, q);
      t.pc == s.pc[c := t.pc[c]] && Remaining(su, c, t.pc[c]) < Remaining(su, c, s.pc[c])
  {
    hide Setup.Busy, Setup.LocalRows, After;
    var t := Advance(su, s, c, q);
    assert t.pc == s.pc[c := t.pc[c]];
    if s.pc[c].Loop? {
      assert su.batch > 0;
    }
  }

  lemma AdvanceSpends(su: Setup, s: State, c: nat, q: Luck)
    requires su.Sound() && c < |s.pc| && s.barrier.count > 0 && Enabled(su, s, c) && LegalPc(su, c, s.pc[c])
    ensures
      var t := Advance(su, s, c, q);
      t.pc == s.pc[c := t.pc[c]] && Remaining(su, c, t.pc[c]) < Remaining(su, c, s.pc[c])
  {
    if s.pc[c].Arrive? || s.pc[c].Waiting? {
      BarrierSpends(su, s, c, q);
    } else {
      OwnStepSpends(su, s, c, q);
    }
  }

  /** What is left of a run: the clients' budgets, and one step for dying. */
  function Left(su: Setup, s: State): nat
  {
    if s.fatal then 0 else 1 + Sum(Costs(su, s.pc))
  }

  lemma StepSpends(su: Setup, s: State, t: State)
    requires su.Sound() && InStep(su, s) && Step(su, s, t)
    ensures Left(su, t) < Left(su, s)
  {
    hide Advance, Enabled, Setup.Busy, Remaining, Sum, LegalPc;
    var c, q :| 0 <= c < |s.pc| && MoveOf(su, s, t, c, q);
    if Enabled(su, s, c) && t == Advance(su, s, c, q) {
      AdvanceSpends(su, s, c, q);
      var left := Remaining(su, c, t.pc[c]);
      assert Costs(su, t.pc) == Costs(su, s.pc)[c := left];
      SumUpdate(Costs(su, s.pc), c, left);
    }
  }

  lemma {:induction false} RunSpends(su: Setup, run: seq<State>, i: nat)
    requires su.Sound() && Run(su, run) && i < |run|
    requires forall j :: 0 <= j < |run| ==> InStep(su, run[j])
    ensures Left(su, run[i]) + i <= Left(su, run[0])
  {
    hide Step, Setup.Sound, Left, InStep;
    if i > 0 {
      RunSpends(su, run, i - 1);
      StepSpends(su, run[i - 1], run[i]);
    }
  }

  lemma {:induction false} InitialCosts(su: Setup, k: nat)
    requires k <= su.N()
    ensures Sum(Costs(su, seq(k, _ => Start))) == 22 * k + Sum(su.local[..k])
  {
    var costs := Costs(su, seq(k, _ => Start));
    if k == 0 {
      assert su.local[..k] == [];
    } else {
      InitialCosts(su, k - 1);
      assert costs[..k - 1] == Costs(su, seq(k - 1, _ => Start));
      assert su.local[..k][..k - 1] == su.local[..k - 1];
    }
  }

  lemma SpentBudget(su: Setup, run: seq<State>)
    requires su.Sound() && Run(su, run)
    requires forall j :: 0 <= j < |run| ==> InStep(su, run[j])
    ensures |run| <= 22 * su.N() + Sum(su.local) + 2
  {
    RunSpends(su, run, |run| - 1);
    InitialCosts(su, su.N());
    assert su.local[..su.N()] == su.local;
    assert run[0].pc == seq(su.N(), _ => Start);
  }

  /** No run is longer than 22 states a client, one a row and two more. */
  lemma RunsAreBounded(su: Setup, run: seq<State>)
    requires su.Valid() && Run(su, run)
    ensures |run| <= 22 * su.N() + Sum(su.local) + 2
  {
    forall j | 0 <= j < |run|
      ensures InStep(su, run[j])
    {
      RunKeepsInv(su, run, j);
    }
    hide InStep;
    SpentBudget(su, run);
  }
}
