/** The mixed insert workload: validated batch sizes, one insert client's loop and log, and
    what all clients' logs together say about the rows and ids of the corpus. */
module MixedWorkload {
  import opened Basics
  import opened RowPartition
  import opened Visibility
  import opened Truncation

  // --------------------------------------------------------------- batch sizes

  /** The Go configuration; zero stands for an unset bound. */
  datatype GoBatch = GoBatch(fixed: int, min: int, max: int)

  /** `validateBatchConfig`. */
  predicate GoAccepts(c: GoBatch)
  {
    c.fixed > 0 && ((c.min == 0) == (c.max == 0)) && c.min >= 0 && c.max >= 0 && (c.min > 0 ==> c.min <= c.max)
  }

  /** Go `Next`; `draw` is what the generator returns below its argument. */
  function GoNext(c: GoBatch, draw: nat -> nat): int
  {
    if c.min > 0 && c.max > 0 then
      if c.min == c.max then c.min
      else if c.max - c.min + 1 > 0 then c.min + draw(c.max - c.min + 1) else 0
    else c.fixed
  }

  /** And any size within the bounds may be picked. */
  lemma GoPicksAny(c: GoBatch, size: int)
    requires GoAccepts(c) && c.min > 0 && c.min <= size <= c.max
    ensures
      var draw := (n: nat) => if size - c.min < n then size - c.min else 0;
      (forall n: nat :: n > 0 ==> draw(n) < n) && GoNext(c, draw) == size
  {
  }

  /** Every accepted configuration picks a positive size, within the bounds if they are set. */
  lemma GoPicksPositive(c: GoBatch, draw: nat -> nat)
    requires GoAccepts(c) && forall n: nat :: n > 0 ==> draw(n) < n
    ensures GoNext(c, draw) >= 1
    ensures c.min > 0 ==> c.min <= GoNext(c, draw) <= c.max
    ensures c.min == 0 ==> GoNext(c, draw) == c.fixed
  {
    if c.max - c.min + 1 > 0 {
      assert draw(c.max - c.min + 1) < c.max - c.min + 1;
    }
  }

  datatype Bound = Unset | Set(value: nat)

  datatype RustBatch = RustBatch(fixed: nat, min: Bound, max: Bound)

  /** `validate_batch_config`. */
  predicate RustAccepts(c: RustBatch)
  {
    c.fixed > 0 &&
    match (c.min, c.max)
    case (Unset, Unset) => true
    case (Set(lo), Set(hi)) => lo > 0 && hi > 0 && lo <= hi
    case _ => false
  }

  const MULTIPLIER: nat := 6364136223846793005

  function BoundOf(n: nat): Bound
  {
    if n == 0 then Unset else Set(n)
  }

  /** The two clients accept the same configurations: a positive fixed size and either no bounds
      or two positive ones in order. */
  lemma AcceptedAlike(fixed: nat, min: nat, max: nat)
    ensures GoAccepts(GoBatch(fixed, min, max)) <==> RustAccepts(RustBatch(fixed, BoundOf(min), BoundOf(max)))
    ensures GoAccepts(GoBatch(fixed, min, max)) <==> fixed > 0 && (min == max == 0 || 0 < min <= max)
  {
  }

  /** What only one of them can be given is refused: negative numbers, and bounds of zero. */
  lemma OthersRefused(c: GoBatch, r: RustBatch)
    ensures c.fixed < 0 || c.min < 0 || c.max < 0 ==> !GoAccepts(c)
    ensures r.min == Set(0) || r.max == Set(0) ==> !RustAccepts(r)
  {
  }

  /** The Rust picker: a 64-bit congruential generator that steps only when it is asked for a
      size between two different bounds. */
  class BatchPicker {
    const cfg: RustBatch
    var state: nat

    constructor (cfg: RustBatch, insert: bool, client: nat)
      ensures this.cfg == cfg && state == client + (if insert then 1 else 10001)
    {
      this.cfg := cfg;
      state := client + (if insert then 1 else 10001);
    }

    method Next() returns (size: nat)
      requires RustAccepts(cfg)
      modifies this
      ensures size >= 1
      ensures cfg.min.Set? ==> cfg.min.value <= size <= cfg.max.value
      ensures cfg.min.Unset? ==> size == cfg.fixed
      ensures cfg.min.Set? && cfg.min.value < cfg.max.value ==>
          (size - cfg.min.value) == state % (cfg.max.value - cfg.min.value + 1)
      ensures state == if cfg.min.Set? && cfg.min.value < cfg.max.value
                       then (old(state) * MULTIPLIER + 1) % U64 else old(state)
    {
      if cfg.min.Set? && cfg.max.Set? && cfg.min.value < cfg.max.value {
        state := (state * MULTIPLIER % U64 + 1) % U64;
        WrapTwice(old(state) * MULTIPLIER);
        var span := cfg.max.value - cfg.min.value + 1;
        size := cfg.min.value + state % span;
      } else if cfg.min.Set? && cfg.max.Set? {
        size := cfg.min.value;
      } else {
        size := cfg.fixed;
      }
    }
  }

  lemma WrapTwice(n: nat)
    ensures (n % U64 + 1) % U64 == (n + 1) % U64
  {
    var q, r := n / U64, n % U64;
    assert n == U64 * q + r;
    if r + 1 < U64 {
      DivModUnique(n + 1, U64, q, r + 1);
      DivModUnique(r + 1, U64, 0, r + 1);
    } else {
      DivModUnique(n + 1, U64, q + 1, 0);
      DivModUnique(r + 1, U64, 1, 0);
    }
  }

  // ------------------------------------------------------------- one client

  datatype Record = Record(op: nat, startRow: nat, endRow: nat, idStart: int, idEnd: int, completedAt: int, ok: bool)

  datatype Language = Go | Rust

  /** What becomes of the log: it is written, or the write fails after some whole records. */
  datatype LogWrite = Written | Torn(kept: nat)
  {
    function Kept(records: seq<Record>): seq<Record>
    {
      if Torn? && kept < |records| then records[..kept] else records
    }
  }

  /** What the client meets: the picker's sizes, each operation's success and time, for the
      paced Go client the operation before which its context is cancelled, and its log. */
  datatype World = World(
    size: nat -> nat,
    succeeds: nat -> bool,
    time: nat -> int,
    cancelled: nat -> bool,
    log: LogWrite)

  /** The row at which an operation starts, if all before it succeed. */
  function RowBefore(w: World, slice: Slice, op: nat): nat
  {
    if op == 0 then slice.start else Min(RowBefore(w, slice, op - 1) + w.size(op - 1), slice.end)
  }

  /** Is an operation reached, with rows left for it and the client not cancelled before? */
  ghost predicate Reaches(lang: Language, w: World, slice: Slice, op: nat)
  {
    && RowBefore(w, slice, op) < slice.end
    && forall k: nat :: k < op ==> w.succeeds(k) && (lang.Go? ==> !w.cancelled(k))
  }

  ghost predicate CancelledAt(lang: Language, w: World, slice: Slice, op: nat)
  {
    lang.Go? && w.cancelled(op) && Reaches(lang, w, slice, op)
  }

  ghost predicate FailsAt(lang: Language, w: World, slice: Slice, op: nat)
  {
    !w.succeeds(op) && (lang.Go? ==> !w.cancelled(op)) && Reaches(lang, w, slice, op)
  }

  ghost predicate Cancels(lang: Language, w: World, slice: Slice)
  {
    exists op: nat :: CancelledAt(lang, w, slice, op)
  }

  ghost predicate InsertFails(lang: Language, w: World, slice: Slice)
  {
    exists op: nat :: FailsAt(lang, w, slice, op)
  }

  /** When the workload gets an error from a client: a failed insert alone is one only for Rust. */
  ghost predicate EndsInError(lang: Language, w: World, slice: Slice)
  {
    Cancels(lang, w, slice) || w.log.Torn? || (lang.Rust? && InsertFails(lang, w, slice))
  }

  /** The records of a client's first operations: each block goes from the row at which its
      operation starts to the row at which the next one does. */
  ghost predicate Follows(records: seq<Record>, slice: Slice, w: World)
  {
    forall i: nat :: i < |records| ==>
      && records[i].startRow == RowBefore(w, slice, i) && records[i].endRow == RowBefore(w, slice, i + 1)
      && records[i].ok == w.succeeds(i) && records[i].completedAt == w.time(i)
  }

  /** The records of some operations: consecutive non-empty blocks from the slice's start,
      numbered in order, ids by row, all but perhaps the last successful. */
  ghost predicate LogOf(records: seq<Record>, slice: Slice, idStart: int)
  {
    && (forall i :: 0 <= i < |records| ==>
          && records[i].op == i
          && slice.start <= records[i].startRow < records[i].endRow <= slice.end
          && records[i].idStart == idStart + records[i].startRow
          && records[i].idEnd == idStart + records[i].endRow)
    && (records != [] ==> records[0].startRow == slice.start)
    && (forall i, j :: 0 <= i && j == i + 1 < |records| ==> records[i].endRow == records[j].startRow)
    && (forall i :: 0 <= i < |records| - 1 ==> records[i].ok)
  }

  function RowReached(records: seq<Record>, slice: Slice): nat
  {
    if records == [] then slice.start else records[|records| - 1].endRow
  }

  lemma LogExtends(records: seq<Record>, slice: Slice, idStart: int, r: Record)
    requires LogOf(records, slice, idStart) && (records != [] ==> records[|records| - 1].ok)
    requires r.op == |records| && r.startRow == RowReached(records, slice) < r.endRow <= slice.end
    requires r.idStart == idStart + r.startRow && r.idEnd == idStart + r.endRow
    ensures LogOf(records + [r], slice, idStart)
  {
  }

  lemma FollowsExtends(records: seq<Record>, slice: Slice, w: World, r: Record)
    requires Follows(records, slice, w) && r.op == |records|
    requires r.startRow == RowBefore(w, slice, r.op) && r.endRow == RowBefore(w, slice, r.op + 1)
    requires r.ok == w.succeeds(r.op) && r.completedAt == w.time(r.op)
    ensures Follows(records + [r], slice, w)
  {
    hide RowBefore;
  }

  lemma NoLog(slice: Slice, idStart: int, w: World)
    ensures LogOf([], slice, idStart) && Follows([], slice, w)
  {
  }

  lemma KeptIsLog(records: seq<Record>, slice: Slice, idStart: int, w: World)
    requires LogOf(records, slice, idStart) && Follows(records, slice, w)
    ensures LogOf(w.log.Kept(records), slice, idStart) && Follows(w.log.Kept(records), slice, w)
  {
    hide LogOf, Follows;
    var n := |w.log.Kept(records)|;
    assert w.log.Kept(records) == records[..n];
    LogPrefix(records, slice, idStart, n);
    FollowsPrefix(records, slice, w, n);
  }

  lemma LogPrefix(records: seq<Record>, slice: Slice, idStart: int, n: nat)
    requires LogOf(records, slice, idStart) && n <= |records|
    ensures LogOf(records[..n], slice, idStart)
  {
  }

  lemma FollowsPrefix(records: seq<Record>, slice: Slice, w: World, n: nat)
    requires Follows(records, slice, w) && n <= |records|
    ensures Follows(records[..n], slice, w)
  {
    hide RowBefore;
  }

  /** `writeJSONL` and `write_jsonl`. */
  method WriteJsonl(records: seq<Record>, log: LogWrite) returns (written: seq<Record>, error: bool)
    ensures written == log.Kept(records) && error == log.Torn?
  {
    match log {
      case Written =>
        written, error := records, false;
      case Torn(kept) =>
        written, error := if kept < |records| then records[..kept] else records, true;
    }
  }

  lemma {:induction false} StaysAtEnd(w: World, slice: Slice, op: nat, later: nat)
    requires RowBefore(w, slice, op) == slice.end && op <= later
    ensures RowBefore(w, slice, later) == slice.end
  {
    if op < later {
      StaysAtEnd(w, slice, op, later - 1);
    }
  }

  lemma RowSteps(w: World, slice: Slice, op: nat)
    ensures RowBefore(w, slice, 0) == slice.start
    ensures RowBefore(w, slice, op + 1) == Min(RowBefore(w, slice, op) + w.size(op), slice.end)
  {
  }

  /** A client that gets to the end of its rows met no failure and no cancellation. */
  lemma NothingHappened(lang: Language, w: World, slice: Slice, op: nat)
    requires RowBefore(w, slice, op) == slice.end
    requires forall k: nat :: k < op ==> w.succeeds(k) && (lang.Go? ==> !w.cancelled(k))
    ensures !Cancels(lang, w, slice) && !InsertFails(lang, w, slice)
  {
    forall k: nat
      ensures !CancelledAt(lang, w, slice, k) && !FailsAt(lang, w, slice, k)
    {
      if k >= op {
        StaysAtEnd(w, slice, op, k);
      }
    }
  }

  lemma CancellationEnds(lang: Language, w: World, slice: Slice, op: nat)
    requires CancelledAt(lang, w, slice, op)
    ensures Cancels(lang, w, slice)
  {
  }

  /** A client whose insert fails was not cancelled before it, and it stops there. */
  lemma FailureEnds(lang: Language, w: World, slice: Slice, op: nat)
    requires FailsAt(lang, w, slice, op)
    ensures InsertFails(lang, w, slice) && !Cancels(lang, w, slice)
  {
    forall k: nat
      ensures !CancelledAt(lang, w, slice, k)
    {
    }
  }

  /** `runInsertClient` and `run_insert_client`: the records in the log at the end, and whether
      the workload gets an error. A client is silent about a failed insert exactly when it is
      the Go one and its log could be written. The loop ends because every size is positive. */
  method RunInsertClient(lang: Language, slice: Slice, idStart: int, w: World)
    returns (written: seq<Record>, error: bool)
    requires slice.start <= slice.end && forall i: nat :: w.size(i) >= 1
    ensures error <==> EndsInError(lang, w, slice)
    ensures LogOf(written, slice, idStart) && |written| <= slice.end - slice.start
    ensures Follows(written, slice, w)
    ensures Cancels(lang, w, slice) ==> written == []
    ensures !Cancels(lang, w, slice) && w.log.Written? ==>
        if InsertFails(lang, w, slice) then written != [] && !written[|written| - 1].ok
        else RowReached(written, slice) == slice.end && forall r :: r in written ==> r.ok
  {
    hide Cancels, InsertFails, LogOf, Follows, RowBefore;
    var records: seq<Record> := [];
    var row, op := slice.start, 0;
    NoLog(slice, idStart, w);
    RowSteps(w, slice, 0);
    while row < slice.end
      invariant op == |records| && row == RowReached(records, slice) == RowBefore(w, slice, op) <= slice.end
      invariant LogOf(records, slice, idStart) && Follows(records, slice, w)
      invariant forall r :: r in records ==> r.ok
      invariant forall k: nat :: k < op ==> w.succeeds(k) && (lang.Go? ==> !w.cancelled(k))
      invariant op <= row - slice.start
    {
      var size := w.size(op);
      if size > slice.end - row {
        size := slice.end - row;
      }
      if lang.Go? && w.cancelled(op) {
        CancellationEnds(lang, w, slice, op);
        return [], true;
      }
      var r := Record(op, row, row + size, idStart + row, idStart + row + size, w.time(op), w.succeeds(op));
      LogExtends(records, slice, idStart, r);
      RowSteps(w, slice, op);
      FollowsExtends(records, slice, w, r);
      records := records + [r];
      if !r.ok {
        FailureEnds(lang, w, slice, op);
        KeptIsLog(records, slice, idStart, w);
        written, error := WriteJsonl(records, w.log);
        if lang.Rust? {
          error := true;
        }
        return;
      }
      row := row + size;
      op := op + 1;
    }
    NothingHappened(lang, w, slice, op);
    KeptIsLog(records, slice, idStart, w);
    written, error := WriteJsonl(records, w.log);
  }

  /** Both clients in a world whose first insert fails: each logs the failure, and only the Rust
      client reports it. */
  method FirstInsertFails() returns (goLog: seq<Record>, goError: bool, rustLog: seq<Record>, rustError: bool)
    ensures !goError && rustError
    ensures goLog != [] && rustLog != []
    ensures !goLog[|goLog| - 1].ok && !rustLog[|rustLog| - 1].ok
  {
    var w := World(_ => 1, _ => false, op => op, _ => false, Written);
    var slice := Slice(0, 2);
    assert FailsAt(Go, w, slice, 0) && FailsAt(Rust, w, slice, 0);
    goLog, goError := RunInsertClient(Go, slice, 0, w);
    rustLog, rustError := RunInsertClient(Rust, slice, 0, w);
  }

  lemma {:induction false} BlocksInOrder(records: seq<Record>, slice: Slice, idStart: int, i: nat, j: nat)
    requires LogOf(records, slice, idStart) && i < j < |records|
    ensures records[i].endRow <= records[j].startRow
  {
    if i + 1 < j {
      BlocksInOrder(records, slice, idStart, i, j - 1);
    }
  }

  // ------------------------------------------------------------ all clients

  /** One log for each client, over the rows split among them. */
  ghost predicate Logs(logs: seq<seq<Record>>, rows: nat, idStart: int)
  {
    |logs| > 0 && forall c: nat :: c < |logs| ==> LogOf(logs[c], SplitRange(rows, |logs|, c), idStart)
  }

  function Ids(records: seq<Record>): seq<int>
  {
    if records == [] then []
    else Ids(records[..|records| - 1]) + Span(records[|records| - 1].idStart, records[|records| - 1].idEnd)
  }

  function Span(lo: int, hi: int): seq<int>
  {
    seq(if lo <= hi then hi - lo else 0, i => lo + i)
  }

  function All(logs: seq<seq<Record>>): seq<Record>
  {
    if logs == [] then [] else All(logs[..|logs| - 1]) + logs[|logs| - 1]
  }

  lemma SpansJoin(a: int, b: int, c: int)
    requires a <= b <= c
    ensures Span(a, b) + Span(b, c) == Span(a, c)
  {
  }

  lemma {:induction false} IdsAppend(a: seq<Record>, b: seq<Record>)
    ensures Ids(a + b) == Ids(a) + Ids(b)
  {
    if b == [] {
      assert a + b == a;
    } else {
      var n := |b| - 1;
      assert Ids(b) == Ids(b[..n]) + Span(b[n].idStart, b[n].idEnd);
      assert Ids(a + b) == Ids((a + b)[..|a| + n]) + Span((a + b)[|a| + n].idStart, (a + b)[|a| + n].idEnd);
      assert (a + b)[..|a| + n] == a + b[..n];
      assert (a + b)[|a| + n] == b[n];
      IdsAppend(a, b[..n]);
      var front, last := Ids(b[..n]), Span(b[n].idStart, b[n].idEnd);
      hide Span, Ids;
      assert Ids(a) + (front + last) == Ids(a) + front + last;
    }
  }

  lemma LogFront(records: seq<Record>, slice: Slice, idStart: int)
    requires LogOf(records, slice, idStart) && records != []
    ensures
      var n := |records| - 1;
      && LogOf(records[..n], slice, idStart)
      && records[n].startRow == RowReached(records[..n], slice) < records[n].endRow
      && records[n].idStart == idStart + records[n].startRow && records[n].idEnd == idStart + records[n].endRow
  {
  }

  lemma {:induction false} ClientIds(records: seq<Record>, slice: Slice, idStart: int)
    requires LogOf(records, slice, idStart)
    ensures slice.start <= RowReached(records, slice)
    ensures Ids(records) == Span(idStart + slice.start, idStart + RowReached(records, slice))
  {
    if records != [] {
      var n := |records| - 1;
      LogFront(records, slice, idStart);
      hide LogOf;
      ClientIds(records[..n], slice, idStart);
      SpansJoin(idStart + slice.start, records[n].idStart, records[n].idEnd);
    }
  }

  /** When every client gets to the end of its slice, the ids inserted by all of them are the
      ids from the start id on, one for each row, in row order. */
  lemma AllIdsOnce(logs: seq<seq<Record>>, rows: nat, idStart: int)
    requires Logs(logs, rows, idStart)
    requires forall c: nat :: c < |logs| ==>
        RowReached(logs[c], SplitRange(rows, |logs|, c)) == SplitRange(rows, |logs|, c).end
    ensures Ids(All(logs)) == Span(idStart, idStart + rows)
  {
    hide SplitRange, RowReached, Logs;
    assert |logs| > 0 by { NotEmpty(logs, rows, idStart); }
    IdsUpTo(logs, rows, idStart, |logs|);
    SplitFacts(rows, |logs|, |logs| - 1);
    assert logs[..|logs|] == logs;
  }

  lemma NotEmpty(logs: seq<seq<Record>>, rows: nat, idStart: int)
    requires Logs(logs, rows, idStart)
    ensures |logs| > 0
  {
  }

  lemma {:induction false} IdsUpTo(logs: seq<seq<Record>>, rows: nat, idStart: int, k: nat)
    requires Logs(logs, rows, idStart) && k <= |logs|
    requires forall c: nat :: c < |logs| ==>
        RowReached(logs[c], SplitRange(rows, |logs|, c)) == SplitRange(rows, |logs|, c).end
    ensures Ids(All(logs[..k])) == Span(idStart, idStart + if k == 0 then 0 else SplitRange(rows, |logs|, k - 1).end)
  {
    hide SplitRange, LogOf, RowReached, Ids, Span;
    if k == 0 {
      NoIds(idStart);
      assert logs[..0] == [];
    } else {
      IdsUpTo(logs, rows, idStart, k - 1);
      assert logs[..k][..k - 1] == logs[..k - 1];
      var slice := SplitRange(rows, |logs|, k - 1);
      ClientIds(logs[k - 1], slice, idStart);
      IdsAppend(All(logs[..k - 1]), logs[k - 1]);
      SplitFacts(rows, |logs|, k - 1);
      if k > 1 {
        SplitFacts(rows, |logs|, k - 2);
      }
      SpansJoin(idStart, idStart + slice.start, idStart + slice.end);
    }
  }

  lemma NoIds(idStart: int)
    ensures Ids([]) == Span(idStart, idStart)
  {
  }

  ghost predicate AllOk(records: seq<Record>)
  {
    forall r :: r in records ==> r.ok
  }

  lemma AllOkJoin(a: seq<Record>, b: seq<Record>)
    ensures AllOk(a + b) <==> AllOk(a) && AllOk(b)
  {
    if AllOk(a + b) {
      forall r | r in a || r in b
        ensures r.ok
      {
        assert r in a + b;
      }
    }
  }

  lemma {:induction false} AllOkIff(logs: seq<seq<Record>>)
    ensures AllOk(All(logs)) <==> forall log :: log in logs ==> AllOk(log)
  {
    if logs != [] {
      var n := |logs| - 1;
      AllOkIff(logs[..n]);
      assert logs == logs[..n] + [logs[n]];
      assert AllOk(All(logs)) <==> AllOk(All(logs[..n])) && AllOk(logs[n]) by {
        AllOkJoin(All(logs[..n]), logs[n]);
      }
      hide AllOk;
      assert forall log :: log in logs <==> log in logs[..n] || log == logs[n];
    }
  }

  /** What the log of a client that reports no error shows. */
  ghost predicate Outcome(lang: Language, log: seq<Record>, w: World, slice: Slice)
  {
    if InsertFails(lang, w, slice) then !AllOk(log) else RowReached(log, slice) == slice.end && AllOk(log)
  }

  /** What all logs show if no client reports an error. */
  lemma NoErrorOutcome(lang: Language, logs: seq<seq<Record>>, rows: nat, idStart: int, worlds: seq<World>)
    requires Logs(logs, rows, idStart) && |logs| == |worlds|
    requires forall c: nat :: c < |worlds| ==> Outcome(lang, logs[c], worlds[c], SplitRange(rows, |worlds|, c))
    ensures AllOk(All(logs)) <==>
        forall c: nat :: c < |worlds| ==> !InsertFails(lang, worlds[c], SplitRange(rows, |worlds|, c))
    ensures AllOk(All(logs)) ==> Ids(All(logs)) == Span(idStart, idStart + rows)
  {
    hide Logs, AllOk, All, InsertFails, SplitRange, RowReached, Ids, Span;
    AllOkIff(logs);
    if AllOk(All(logs)) {
      forall c: nat | c < |logs|
        ensures RowReached(logs[c], SplitRange(rows, |logs|, c)) == SplitRange(rows, |logs|, c).end
      {
        assert logs[c] in logs;
      }
      AllIdsOnce(logs, rows, idStart);
    }
  }

  /** The insert clients of `runWorkload` and `run_workload`, each with its slice of the rows and
      its own world; the workload fails exactly if a client reports an error. Without an error
      every row is inserted if every logged record is ok. That is always so for the Rust clients,
      and for the Go clients exactly if no insert failed. */
  method RunInsertClients(lang: Language, rows: nat, idStart: int, worlds: seq<World>)
    returns (logs: seq<seq<Record>>, error: bool)
    requires worlds != [] && forall w :: w in worlds ==> forall i: nat :: w.size(i) >= 1
    ensures error <==>
        exists c: nat :: c < |worlds| && EndsInError(lang, worlds[c], SplitRange(rows, |worlds|, c))
    ensures |logs| == |worlds| && Logs(logs, rows, idStart)
    ensures !error ==>
        (AllOk(All(logs)) <==>
          forall c: nat :: c < |worlds| ==> !InsertFails(lang, worlds[c], SplitRange(rows, |worlds|, c)))
    ensures !error && AllOk(All(logs)) ==> Ids(All(logs)) == Span(idStart, idStart + rows)
    ensures !error && lang.Rust? ==> AllOk(All(logs))
  {
    hide SplitRange, LogOf, Follows, Cancels, InsertFails, All, Ids, Span;
    logs, error := [], false;
    for c := 0 to |worlds|
      invariant |logs| == c
      invariant error <==> exists k: nat :: k < c && EndsInError(lang, worlds[k], SplitRange(rows, |worlds|, k))
      invariant forall k: nat :: k < c ==> LogOf(logs[k], SplitRange(rows, |worlds|, k), idStart)
      invariant !error ==> forall k: nat :: k < c ==>
          Outcome(lang, logs[k], worlds[k], SplitRange(rows, |worlds|, k))
    {
      SplitFacts(rows, |worlds|, c);
      var slice := SplitRange(rows, |worlds|, c);
      assert worlds[c] in worlds;
      var log, failed := RunInsertClient(lang, slice, idStart, worlds[c]);
      logs, error := logs + [log], error || failed;
    }
    if !error {
      NoErrorOutcome(lang, logs, rows, idStart, worlds);
    }
  }

  // ------------------------------------------------------------ the timeline

  function EventOf(r: Record): InsertEvent
  {
    InsertEvent(r.completedAt, r.startRow, r.endRow, r.ok)
  }

  function Events(records: seq<Record>): (es: seq<InsertEvent>)
    ensures |es| == |records|
  {
    seq(|records|, i requires 0 <= i < |records| => EventOf(records[i]))
  }

  /** Records of different operations touch different rows. */
  ghost predicate Apart(es: seq<InsertEvent>)
  {
    && (forall e :: e in es ==> e.startRow < e.endRow)
    && (forall i, j :: 0 <= i < j < |es| ==> Disjoint(es[i], es[j]))
  }

  lemma ClientEventsApart(records: seq<Record>, slice: Slice, idStart: int)
    requires LogOf(records, slice, idStart)
    ensures Apart(Events(records))
    ensures forall e :: e in Events(records) ==> slice.start <= e.startRow < e.endRow <= slice.end
  {
    var es := Events(records);
    forall i, j | 0 <= i < j < |es|
      ensures Disjoint(es[i], es[j])
    {
      BlocksInOrder(records, slice, idStart, i, j);
    }
  }

  lemma EventsAppend(a: seq<Record>, b: seq<Record>)
    ensures Events(a + b) == Events(a) + Events(b)
  {
  }

  lemma ApartJoin(a: seq<InsertEvent>, b: seq<InsertEvent>, row: nat)
    requires Apart(a) && Apart(b)
    requires forall e :: e in a ==> e.endRow <= row
    requires forall e :: e in b ==> row <= e.startRow
    ensures Apart(a + b)
  {
    var es := a + b;
    forall i, j | 0 <= i < j < |es|
      ensures Disjoint(es[i], es[j])
    {
      assert i < |a| ==> es[i] in a;
      assert j >= |a| ==> es[j] in b;
    }
  }

  lemma {:induction false} EventsUpTo(logs: seq<seq<Record>>, rows: nat, idStart: int, k: nat)
    requires Logs(logs, rows, idStart) && k <= |logs|
    ensures Apart(Events(All(logs[..k])))
    ensures forall e :: e in Events(All(logs[..k])) ==>
        e.endRow <= if k == 0 then 0 else SplitRange(rows, |logs|, k - 1).end
  {
    hide SplitRange, LogOf, Apart;
    if k == 0 {
      NoEvents();
      assert logs[..0] == [];
    } else {
      EventsUpTo(logs, rows, idStart, k - 1);
      assert logs[..k][..k - 1] == logs[..k - 1];
      var slice := SplitRange(rows, |logs|, k - 1);
      ClientEventsApart(logs[k - 1], slice, idStart);
      EventsAppend(All(logs[..k - 1]), logs[k - 1]);
      SplitFacts(rows, |logs|, k - 1);
      if k > 1 {
        SplitFacts(rows, |logs|, k - 2);
      }
      ApartJoin(Events(All(logs[..k - 1])), Events(logs[k - 1]), slice.start);
    }
  }

  lemma NoEvents()
    ensures Apart(Events([]))
  {
  }

  /** Being apart does not depend on the order of the events. */
  lemma ApartInAnyOrder(a: seq<InsertEvent>, b: seq<InsertEvent>)
    requires Apart(a) && multiset(a) == multiset(b)
    ensures Apart(b)
  {
    ApartNoRepeats(a);
    MultisetNoRepeats(a, b);
    forall i, j | 0 <= i < j < |b|
      ensures Disjoint(b[i], b[j])
    {
      assert b[i] in a && b[j] in a && b[i] != b[j];
      ApartMembers(a, b[i], b[j]);
    }
  }

  lemma ApartNoRepeats(a: seq<InsertEvent>)
    requires Apart(a)
    ensures NoRepeats(a)
  {
    forall i, j | 0 <= i < j < |a|
      ensures a[i] != a[j]
    {
      assert a[i] in a && Disjoint(a[i], a[j]);
    }
  }

  lemma ApartMembers(a: seq<InsertEvent>, x: InsertEvent, y: InsertEvent)
    requires Apart(a) && x in a && y in a && x != y
    ensures Disjoint(x, y)
  {
    var i :| 0 <= i < |a| && a[i] == x;
    var j :| 0 <= j < |a| && a[j] == y;
    if i < j {
      assert Disjoint(a[i], a[j]);
    } else {
      assert j < i && Disjoint(a[j], a[i]);
    }
  }

  /** The timeline's assumption, whatever sizes were picked and whichever inserts failed: the
      events read from all clients' logs, in any order, have disjoint non-empty blocks. */
  lemma LogsAreDisjointInserts(logs: seq<seq<Record>>, rows: nat, idStart: int, events: seq<InsertEvent>)
    requires Logs(logs, rows, idStart) && multiset(events) == multiset(Events(All(logs)))
    ensures DisjointInserts(events) && WellFormed(events)
    ensures forall e :: e in events ==> e.endRow <= rows
  {
    EventsUpTo(logs, rows, idStart, |logs|);
    SplitFacts(rows, |logs|, |logs| - 1);
    assert logs[..|logs|] == logs;
    ApartInAnyOrder(Events(All(logs)), events);
    forall e | e in events
      ensures e in Events(All(logs))
    {
      assert e in multiset(events);
    }
  }

  /** So the timeline's row limit never cuts a block of such logs and stays inside the corpus:
      the cut reconstruction cannot fail on them. */
  lemma LogsAreReconstructible(
      logs: seq<seq<Record>>, rows: nat, idStart: int, events: seq<InsertEvent>, cutoff: int, limit: nat)
    requires Logs(logs, rows, idStart) && multiset(events) == multiset(Events(All(logs)))
    requires IsRowLimit(events, cutoff, limit)
    ensures CutsNoBlock(events, limit) && limit <= rows
    ensures forall e :: e in Truncate(events, limit) && e.ok ==> Fits(e, limit)
  {
    LogsAreDisjointInserts(logs, rows, idStart, events);
    LimitCutsNoBlock(events, cutoff, limit);
    InBoundsIff(events, limit);
    TruncateMembers(events, limit);
  }
}
