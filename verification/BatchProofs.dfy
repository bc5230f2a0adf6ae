/** What every run of the batch-client protocol keeps, and that every run ends. */
module BatchProofs {
  import opened Basics
  import opened Coordination
  import opened BatchProtocol

  // ------------------------------------------------------------ barrier steps

  lemma InitInv(su: Setup)
    requires su.Sound()
    ensures Inv(su, Init(su))
  {
    hide Setup.Busy;
    var s := Init(su);
    assert Waiters(s) == {};
    assert Counted(su, s) == {};
  }

  lemma WaitersJoined(s: State, t: State, c: nat)
    requires c < |s.pc| && |t.pc| == |s.pc| && t.barrier.gen == s.barrier.gen
    requires forall d :: 0 <= d < |s.pc| && d != c ==> t.pc[d] == s.pc[d]
    requires !s.pc[c].Waiting?
    requires t.pc[c].Waiting? && t.pc[c].g == s.barrier.gen
    ensures |Waiters(t)| == |Waiters(s)| + 1
  {
    assert Waiters(t) == Waiters(s) + {c};
  }

  lemma AfterPassed(su: Setup, c: nat, k: nat, gen: nat)
    requires 1 <= k <= 5
    ensures LegalPc(su, c, After(su, c, k))
    ensures Passed(After(su, c, k), gen) == k && !After(su, c, k).Waiting?
  {
    hide Setup.Busy;
  }

  lemma ArriveKeepsBarrier(su: Setup, s: State, c: nat, q: Luck)
    requires su.Sound() && BarrierInv(su, s) && c < |s.pc| && s.pc[c].Arrive?
    ensures BarrierInv(su, Advance(su, s, c, q))
  {
    hide Setup.Busy, After;
    var k := s.pc[c].k;
    var t := Advance(su, s, c, q);
    if s.barrier.LastArrival() {
      AfterPassed(su, c, k, t.barrier.gen);
      AllButOne(Waiters(s), su.N(), c);
      forall d | 0 <= d < |s.pc|
        ensures LegalPc(su, d, t.pc[d]) && Passed(t.pc[d], t.barrier.gen) == t.barrier.gen
      {
        if d != c {
          assert d in Waiters(s);
        }
      }
      assert Waiters(t) == {} by {
        forall d: nat | d < |t.pc|
          ensures d !in Waiters(t)
        {
          if d != c {
            assert d in Waiters(s);
          }
        }
      }
    } else {
      WaitersJoined(s, t, c);
    }
  }

  /** What a step other than an arrival does to its client. */
  lemma BarrierMove(su: Setup, s: State, c: nat, q: Luck)
    requires su.Sound() && s.barrier.Valid() && c < |s.pc| && !s.pc[c].Arrive? && Enabled(su, s, c)
    requires LegalPc(su, c, s.pc[c]) && Passed(s.pc[c], s.barrier.gen) == s.barrier.gen
    ensures
      var t := Advance(su, s, c, q);
      && t.barrier == s.barrier && t.pc == s.pc[c := t.pc[c]]
      && LegalPc(su, c, t.pc[c]) && Passed(t.pc[c], s.barrier.gen) == s.barrier.gen
      && !t.pc[c].Waiting?
      && !(s.pc[c].Waiting? && s.pc[c].g == s.barrier.gen)
  {
    hide Setup.Busy, After, Setup.LocalRows;
    if s.pc[c].Waiting? {
      AfterPassed(su, c, s.pc[c].k, s.barrier.gen);
    }
  }

  /** Every other step leaves the barrier alone and its client at the same number of waits. */
  lemma OtherKeepsBarrier(su: Setup, s: State, c: nat, q: Luck)
    requires su.Sound() && BarrierInv(su, s) && c < |s.pc| && !s.pc[c].Arrive? && Enabled(su, s, c)
    ensures BarrierInv(su, Advance(su, s, c, q))
    ensures Advance(su, s, c, q).barrier == s.barrier
  {
    var t := Advance(su, s, c, q);
    assert LegalPc(su, c, s.pc[c]) && Passed(s.pc[c], s.barrier.gen) == s.barrier.gen;
    BarrierMove(su, s, c, q);
    hide Setup.Busy, After, Setup.LocalRows, Advance, LegalPc, Passed, Enabled;
    assert Waiters(t) == Waiters(s);
  }

  // ----------------------------------------------------- gate, channel, writer

  lemma AfterGate(su: Setup, c: nat, k: nat)
    requires 1 <= k <= 5
    ensures su.marker && su.Busy(c) && PastGate(After(su, c, k)) ==> k >= 2
    ensures k >= 2 ==> PastGate(After(su, c, k))
  {
    hide Setup.Busy;
  }

  /** What a step does to the gate. */
  lemma GateMove(su: Setup, s: State, c: nat, q: Luck)
    requires su.Sound() && s.barrier.Valid() && c < |s.pc| && Enabled(su, s, c) && LegalPc(su, c, s.pc[c])
    ensures
      var t := Advance(su, s, c, q);
      && t.pc == s.pc[c := t.pc[c]]
      && (PastGate(s.pc[c]) ==> PastGate(t.pc[c]))
      && (t.gate == s.gate || (t.gate.isOpen && c == 0 && su.Busy(0) && PastGate(t.pc[0])))
      && (su.marker && su.Busy(c) && PastGate(t.pc[c]) ==> PastGate(s.pc[c]) || t.gate.isOpen)
  {
    hide Setup.Busy, Setup.LocalRows, After;
    if s.pc[c].Arrive? || s.pc[c].Waiting? {
      AfterGate(su, c, s.pc[c].k);
    }
  }

  lemma GateKept(su: Setup, s: State, c: nat, q: Luck)
    requires su.Sound() && BarrierInv(su, s) && GateInv(su, s) && c < |s.pc| && Enabled(su, s, c)
    ensures GateInv(su, Advance(su, s, c, q))
  {
    assert LegalPc(su, c, s.pc[c]);
    GateMove(su, s, c, q);
    hide Setup.Busy, Advance, Enabled, PastGate, BarrierInv, LegalPc;
  }

  lemma CountedUnmoved(su: Setup, s: State, t: State, c: nat)
    requires c < |s.pc| && |t.pc| == |s.pc|
    requires forall d :: 0 <= d < |s.pc| && d != c ==> t.pc[d] == s.pc[d]
    requires !su.Busy(c) ==> ((s.pc[c] != Start && s.pc[c] != CountReady) <==>
        (t.pc[c] != Start && t.pc[c] != CountReady))
    ensures Counted(su, t) == Counted(su, s)
  {
    hide Setup.Busy;
  }

  /** A client with rows is never counted, so the counter never reaches N. */
  lemma NotAllCounted(su: Setup, s: State, d: nat)
    requires |s.pc| == su.N() && su.Busy(d)
    ensures |Counted(su, s)| < su.N()
  {
    SubsetSize(Counted(su, s), UpTo(su.N()) - {d});
  }

  lemma CountKeepsSearch(su: Setup, s: State, c: nat, q: Luck)
    requires su.Sound() && BarrierInv(su, s) && SearchInv(su, s) && c < |s.pc| && s.pc[c] == CountReady
    ensures SearchInv(su, Advance(su, s, c, q))
  {
    hide Setup.Busy;
    var t := Advance(su, s, c, q);
    assert Counted(su, t) == Counted(su, s) + {c};
    SubsetSize(Counted(su, t), UpTo(su.N()));
    assert !s.timing.AllReady();
    if t.timing.AllReady() {
      assert t.pc[c] == CloseReady;
    }
    forall d | 0 <= d < |s.pc| && d != c
      ensures t.pc[d] != CloseReady
    {
      assert t.pc[d] == s.pc[d];
    }
  }

  lemma CloseKeepsSearch(su: Setup, s: State, c: nat, q: Luck)
    requires su.Sound() && BarrierInv(su, s) && SearchInv(su, s) && c < |s.pc| && s.pc[c] == CloseReady
    ensures SearchInv(su, Advance(su, s, c, q))
  {
    hide Setup.Busy;
    var t := Advance(su, s, c, q);
    CountedUnmoved(su, s, t, c);
    if su.Busy(0) {
      NotAllCounted(su, s, 0);
    }
    forall d | 0 <= d < |t.pc| && t.pc[d] == CloseReady
      ensures t.timing.AllReady()
    {
      assert s.timing.AllReady();
    }
  }

  /** What any step but a count or a close does to the channel and to rank 0's progress. */
  lemma TimingMove(su: Setup, s: State, c: nat, q: Luck)
    requires su.Sound() && BarrierInv(su, s) && c < |s.pc| && Enabled(su, s, c)
    requires s.pc[c] != CountReady && s.pc[c] != CloseReady
    ensures
      var t := Advance(su, s, c, q);
      && t.pc == s.pc[c := t.pc[c]] && t.pc[c] != CloseReady
      && (t.timing == s.timing || (t.timing == s.timing.MarkSearchable() && c == 0 && su.Busy(0)
          && (t.pc[c] == PublishAgain || PastPublish(t.pc[c]))))
      && (c == 0 && su.Busy(0) && PastPublish(t.pc[c]) ==> PastPublish(s.pc[c]) || t.timing.Closed())
      && (t.timing != s.timing && su.mode == Query ==> PastPublish(t.pc[c]))
      && (c == 0 && su.Busy(0) && (s.pc[c] == PublishAgain || PastPublish(s.pc[c])) ==> PastPublish(t.pc[c]))
      && (!su.Busy(c) ==> ((s.pc[c] != Start) <==> (t.pc[c] != Start && t.pc[c] != CountReady)))
  {
    hide Setup.Busy, Setup.LocalRows;
  }

  lemma OtherKeepsSearch(su: Setup, s: State, c: nat, q: Luck)
    requires su.Sound() && BarrierInv(su, s) && SearchInv(su, s) && c < |s.pc| && Enabled(su, s, c)
    requires s.pc[c] != CountReady && s.pc[c] != CloseReady
    ensures SearchInv(su, Advance(su, s, c, q))
  {
    var t := Advance(su, s, c, q);
    hide Setup.Busy, Setup.LocalRows, PastPublish, Advance, BarrierInv, Enabled;
    TimingMove(su, s, c, q);
    StartUncounted(su, s, t, c);
    forall d | 0 <= d < |t.pc| && t.pc[d] == CloseReady
      ensures s.timing.AllReady()
    {
      assert s.pc[d] == CloseReady;
    }
    if !su.Busy(0) && t.timing.AllReady() && !t.timing.Closed() {
      var d :| 0 <= d < |s.pc| && s.pc[d] == CloseReady;
      assert t.pc[d] == CloseReady;
    }
  }

  lemma StartUncounted(su: Setup, s: State, t: State, c: nat)
    requires c < |s.pc| == |t.pc| && t.pc == s.pc[c := t.pc[c]] && s.pc[c] != CountReady
    requires !su.Busy(c) ==> ((s.pc[c] != Start) <==> (t.pc[c] != Start && t.pc[c] != CountReady))
    ensures Counted(su, t) == Counted(su, s)
  {
    CountedUnmoved(su, s, t, c);
  }

  /** What a step away from the writer leaves alone. */
  lemma WriterMove(su: Setup, s: State, c: nat, q: Luck)
    requires su.Sound() && BarrierInv(su, s) && c < |s.pc| && Enabled(su, s, c)
    requires s.pc[c] != WantLock && !Holds(s.pc[c])
    ensures
      var t := Advance(su, s, c, q);
      && t.pc == s.pc[c := t.pc[c]] && !Holds(t.pc[c]) && t.csv == s.csv
      && t.writer.active == s.writer.active
      && (su.Busy(0) || c != 0 || s.pc[0] != Start ==> t.writer == s.writer)
      && (!su.Busy(0) && c == 0 && s.pc[0] == Start ==>
            (t.writer.rankZeroFinished <==> su.mode == Insert || s.writer.rankZeroFinished))
      && t.pc[c] != Start
      && (su.Busy(c) ==> !Ended(t.pc[c]) && !Ended(s.pc[c]))
  {
    hide Setup.Busy, Setup.LocalRows;
  }

  lemma WriterUnmoved(su: Setup, s: State, c: nat, q: Luck)
    requires su.Sound() && BarrierInv(su, s) && WriterInv(su, s) && c < |s.pc| && Enabled(su, s, c)
    requires s.pc[c] != WantLock && !Holds(s.pc[c])
    ensures WriterInv(su, Advance(su, s, c, q))
  {
    var t := Advance(su, s, c, q);
    hide Setup.Busy, Advance, BarrierInv, Enabled;
    WriterMove(su, s, c, q);
    if s.writer.active {
      var d :| 0 <= d < |s.pc| && Holds(s.pc[d]);
      assert Holds(t.pc[d]);
    }
    forall d | 0 <= d < |t.pc| && Holds(t.pc[d])
      ensures Holds(s.pc[d])
    {
    }
  }

  lemma WriterMoves(su: Setup, s: State, c: nat, q: Luck)
    requires su.Sound() && BarrierInv(su, s) && WriterInv(su, s) && c < |s.pc| && Enabled(su, s, c)
    requires s.pc[c] == WantLock || Holds(s.pc[c])
    ensures WriterInv(su, Advance(su, s, c, q))
  {
    hide Setup.Busy;
    var t := Advance(su, s, c, q);
    if s.pc[c].Releasing? {
      assert Holds(s.pc[c]);
      forall d | 0 <= d < |t.pc|
        ensures !Holds(t.pc[d])
      {
      }
    } else {
      assert Holds(t.pc[c]);
      forall d | 0 <= d < |t.pc| && d != c
        ensures !Holds(t.pc[d])
      {
        if s.pc[c] == Writing {
          assert Holds(s.pc[c]);
        }
      }
    }
  }

  /** What a step other than a write does to the file and to who has appended. */
  lemma CsvMove(su: Setup, s: State, c: nat, q: Luck)
    requires su.Sound() && BarrierInv(su, s) && c < |s.pc| && Enabled(su, s, c) && s.pc[c] != Writing
    ensures
      var t := Advance(su, s, c, q);
      && t.pc == s.pc[c := t.pc[c]] && t.csv == s.csv
      && (su.Busy(c) ==> (Appended(t.pc[c]) <==> Appended(s.pc[c])))
      && (Failed(t.pc[c]) <==> Failed(s.pc[c]))
  {
    hide Setup.Busy, Setup.LocalRows;
    assert LegalPc(su, c, s.pc[c]);
  }

  lemma CsvUnmoved(su: Setup, s: State, c: nat, q: Luck)
    requires su.Sound() && BarrierInv(su, s) && CsvInv(su, s) && c < |s.pc| && Enabled(su, s, c)
    requires s.pc[c] != Writing
    ensures CsvInv(su, Advance(su, s, c, q))
  {
    var t := Advance(su, s, c, q);
    CsvMove(su, s, c, q);
    hide Setup.Busy, CsvShape, Headed, Advance, Enabled, BarrierInv, Appended, Failed;
    forall r: nat | r < |s.pc| && su.Busy(r)
      ensures Appended(t.pc[r]) <==> Appended(s.pc[r])
      ensures Failed(t.pc[r]) <==> Failed(s.pc[r])
    {
    }
  }

  lemma LaterLineKeepsShape(lines: seq<Line>, c: nat)
    requires CsvShape(lines) && Record(c) !in lines
    ensures CsvShape(lines + [Record(c)])
  {
    forall i | 0 <= i < |lines|
      ensures lines[i] != Record(c)
    {
      assert lines[i] in lines;
    }
  }

  /** What any append adds: a prefix of what it puts into its buffer, all of it unless it errs. */
  lemma AppendAdds(csv: CsvState, c: nat, fault: Fault) returns (n: nat)
    ensures n <= |csv.Pending(c)|
    ensures csv.AppendWith(c, fault).lines == csv.lines + csv.Pending(c)[..n]
    ensures !csv.Errs(c, fault) ==> n == |csv.Pending(c)|
  {
    var pending := csv.Pending(c);
    n := match fault
      case NoFault => |pending|
      case NoFile => 0
      case NoHeader => if |pending| == 2 then 0 else |pending|
      case NoRecord => 0
      case Flush(k) => if k < |pending| then k else |pending|;
    assert pending[..|pending|] == pending;
    assert csv.lines + pending[..0] == csv.lines;
  }

  lemma HeadLines(lines: seq<Line>)
    requires lines == [] || lines == [Header] || lines == [Header, Record(0)]
    ensures CsvShape(lines) && forall r: nat :: Record(r) in lines ==> r == 0
  {
  }

  /** The first append is rank 0's, into an empty file. */
  lemma FirstAppend(fault: Fault)
    ensures
      var csv := CsvState(false, []);
      var lines := csv.AppendWith(0, fault).lines;
      && CsvShape(lines) && (forall r: nat :: Record(r) in lines ==> r == 0)
      && (!csv.Errs(0, fault) ==> lines == [Header, Record(0)])
  {
    var csv := CsvState(false, []);
    var both := [Header, Record(0)];
    var n := AppendAdds(csv, 0, fault);
    assert csv.Pending(0) == both;
    var lines := csv.AppendWith(0, fault).lines;
    hide CsvState.AppendWith, CsvState.Errs, CsvState.Pending, CsvShape;
    assert lines == both[..n];
    assert n == 0 || n == 1 || n == 2;
    assert both[..0] == [] && both[..1] == [Header] && both[..2] == both;
    HeadLines(lines);
  }

  /** Every later append adds one record or nothing. */
  lemma LaterAppend(csv: CsvState, c: nat, fault: Fault)
    requires c != 0 && CsvShape(csv.lines) && Record(c) !in csv.lines
    ensures
      var lines := csv.AppendWith(c, fault).lines;
      && CsvShape(lines) && csv.lines <= lines
      && (forall r: nat :: Record(r) in lines ==> r == c || Record(r) in csv.lines)
      && (!csv.Errs(c, fault) ==> Record(c) in lines)
  {
    var n := AppendAdds(csv, c, fault);
    if n == 0 {
      assert csv.AppendWith(c, fault).lines == csv.lines;
    } else {
      assert csv.AppendWith(c, fault).lines == csv.lines + [Record(c)];
      LaterLineKeepsShape(csv.lines, c);
    }
  }

  lemma RankZeroWriteKeepsCsv(su: Setup, s: State, q: Luck)
    requires su.Sound() && CsvInv(su, s) && s.barrier.count > 0 && s.pc[0] == Writing && su.Busy(0)
    ensures CsvInv(su, Advance(su, s, 0, q))
  {
    var t := Advance(su, s, 0, q);
    var err := s.csv.Errs(0, q.fault);
    assert s.csv == CsvState(false, []);
    assert t.pc == s.pc[0 := Releasing(err)] && t.csv.lines == s.csv.AppendWith(0, q.fault).lines;
    FirstAppend(q.fault);
    hide Setup.Busy, CsvShape, CsvState.AppendWith, CsvState.Errs, Advance;
    forall r: nat | r < |s.pc| && su.Busy(r) && Appended(t.pc[r]) && !Failed(t.pc[r])
      ensures Record(r) in t.csv.lines
    {
      assert r != 0 ==> Record(r) in s.csv.lines;
      assert t.csv.lines[1] == Record(0);
    }
  }

  lemma LaterWriteKeepsCsv(su: Setup, s: State, c: nat, q: Luck)
    requires su.Sound() && CsvInv(su, s) && s.barrier.count > 0
    requires 0 < c < |s.pc| && s.pc[c] == Writing && su.Busy(c) && su.Busy(0) && Ended(s.pc[0])
    ensures CsvInv(su, Advance(su, s, c, q))
  {
    var t := Advance(su, s, c, q);
    assert Record(c) !in s.csv.lines;
    LaterAppend(s.csv, c, q.fault);
    hide Setup.Busy, CsvShape, CsvState.AppendWith, CsvState.Errs;
    forall r: nat | Record(r) in t.csv.lines
      ensures r < |t.pc| && su.Busy(r) && Appended(t.pc[r])
    {
    }
    forall r: nat | r < |s.pc| && su.Busy(r) && Appended(t.pc[r]) && !Failed(t.pc[r])
      ensures Record(r) in t.csv.lines
    {
      if r != c {
        assert Record(r) in s.csv.lines;
      }
    }
  }

  lemma WriteKeepsCsv(su: Setup, s: State, c: nat, q: Luck)
    requires su.Sound() && BarrierInv(su, s) && WriterInv(su, s) && CsvInv(su, s) && c < |s.pc| && s.pc[c] == Writing
    requires su.Busy(0)
    ensures CsvInv(su, Advance(su, s, c, q))
  {
    hide Setup.Busy, CsvInv, Advance;
    assert LegalPc(su, c, s.pc[c]);
    if c == 0 {
      RankZeroWriteKeepsCsv(su, s, q);
    } else {
      assert Holds(s.pc[c]);
      LaterWriteKeepsCsv(su, s, c, q);
    }
  }

  lemma BusyMeansRankZeroBusy(su: Setup, c: nat)
    requires su.Valid() && su.Busy(c)
    ensures su.Busy(0)
  {
  }

  /** Every step keeps the invariant. */
  lemma AdvanceKeepsInv(su: Setup, s: State, c: nat, q: Luck)
    requires su.Valid() && Inv(su, s) && c < |s.pc| && Enabled(su, s, c)
    ensures Inv(su, Advance(su, s, c, q))
  {
    hide Setup.Busy, Enabled, Advance, BarrierInv, GateInv, SearchInv, WriterInv, CsvInv;
    if s.pc[c].Arrive? {
      ArriveKeepsBarrier(su, s, c, q);
    } else {
      OtherKeepsBarrier(su, s, c, q);
    }
    GateKept(su, s, c, q);
    if s.pc[c] == CountReady {
      CountKeepsSearch(su, s, c, q);
    } else if s.pc[c] == CloseReady {
      CloseKeepsSearch(su, s, c, q);
    } else {
      OtherKeepsSearch(su, s, c, q);
    }
    if s.pc[c] == WantLock || Holds(s.pc[c]) {
      WriterMoves(su, s, c, q);
    } else {
      WriterUnmoved(su, s, c, q);
    }
    if s.pc[c] == Writing {
      WritingMeansBusy(su, s, c);
      WriteKeepsCsv(su, s, c, q);
    } else {
      CsvUnmoved(su, s, c, q);
    }
  }

  lemma WritingMeansBusy(su: Setup, s: State, c: nat)
    requires su.Valid() && BarrierInv(su, s) && c < |s.pc| && s.pc[c] == Writing
    ensures su.Busy(0)
  {
    hide Setup.Busy;
    BusyMeansRankZeroBusy(su, c);
  }
}
