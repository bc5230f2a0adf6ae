/** Cutting the insert matrix and the insert log down to what the queries can have seen. */
module Truncation {
  import opened Basics
  import opened TopK
  import opened Visibility
  import opened RecallRun

  datatype QueryEvent = QueryEvent(issuedAt: int, ok: bool)

  /** Python `last_successful_query_issue_ns`. */
  function LastOkIssue(qs: seq<QueryEvent>): (r: Option<int>)
    ensures r.None? <==> forall q :: q in qs ==> !q.ok
    ensures r.Some? ==> forall q :: q in qs && q.ok ==> q.issuedAt <= r.value
    ensures r.Some? ==> exists q :: q in qs && q.ok && q.issuedAt == r.value
  {
    if qs == [] then None
    else
      var rest := LastOkIssue(qs[1..]);
      assert qs == [qs[0]] + qs[1..];
      if !qs[0].ok then rest
      else if rest.Some? && rest.value >= qs[0].issuedAt then rest
      else
        assert qs[0] in qs;
        Some(qs[0].issuedAt)
  }

  /** Python `min(visibility_lags_ms or [0.0])`. */
  function MinLag(lags: seq<int>): (r: int)
    ensures lags == [] ==> r == 0
    ensures lags != [] ==> r in lags
    ensures forall l :: l in lags ==> r <= l
  {
    if lags == [] then 0
    else if |lags| == 1 then lags[0]
    else
      var rest := MinLag(lags[1..]);
      assert lags == [lags[0]] + lags[1..];
      if lags[0] <= rest then lags[0] else rest
  }

  ghost predicate VisibleBy(e: InsertEvent, cutoff: int)
  {
    e.ok && e.completedAt <= cutoff
  }

  /** `limit` is the largest end row of an event visible by the cutoff, or 0. */
  ghost predicate IsRowLimit(events: seq<InsertEvent>, cutoff: int, limit: nat)
  {
    && (forall e :: e in events && VisibleBy(e, cutoff) ==> e.endRow <= limit)
    && (limit == 0 || exists e :: e in events && VisibleBy(e, cutoff) && e.endRow == limit)
  }

  /** Python `recall_insert_row_limit`. */
  method RecallInsertRowLimit(events: seq<InsertEvent>, qs: seq<QueryEvent>, lags: seq<int>) returns (limit: nat)
    ensures LastOkIssue(qs).None? ==> limit == 0
    ensures LastOkIssue(qs).Some? ==> IsRowLimit(events, LastOkIssue(qs).value - MinLag(lags), limit)
  {
    var last := LastOkIssue(qs);
    if last.None? {
      return 0;
    }
    var cutoff := last.value - MinLag(lags);
    limit := 0;
    for i := 0 to |events|
      invariant IsRowLimit(events[..i], cutoff, limit)
    {
      var e := events[i];
      assert events[..i + 1] == events[..i] + [e];
      ghost var before := limit;
      if e.ok && e.completedAt <= cutoff {
        limit := if e.endRow > limit then e.endRow else limit;
      }
      if before == limit {
        if limit != 0 {
          var w :| w in events[..i] && VisibleBy(w, cutoff) && w.endRow == limit;
          assert w in events[..i + 1];
        }
      } else {
        assert e in events[..i + 1];
      }
    }
    assert events[..|events|] == events;
  }

  /** The log filter of `main`. */
  function Truncate(events: seq<InsertEvent>, cap: nat): seq<InsertEvent>
  {
    if events == [] then []
    else
      var e := events[|events| - 1];
      var before := Truncate(events[..|events| - 1], cap);
      if !e.ok || e.startRow < cap then before + [e] else before
  }

  lemma {:induction false} TruncateMembers(events: seq<InsertEvent>, cap: nat)
    ensures forall e :: e in Truncate(events, cap) <==> e in events && (!e.ok || e.startRow < cap)
  {
    if events != [] {
      TruncateMembers(events[..|events| - 1], cap);
      assert events == events[..|events| - 1] + [events[|events| - 1]];
    }
  }

  lemma {:induction false} TruncateSorted(events: seq<InsertEvent>, cap: nat)
    requires ByCompletion(events)
    ensures ByCompletion(Truncate(events, cap))
  {
    if events != [] {
      TruncateSorted(events[..|events| - 1], cap);
      TruncateMembers(events[..|events| - 1], cap);
    }
  }

  /** Every event visible by the cutoff that has rows starts below the cap. */
  ghost predicate StartsBelow(events: seq<InsertEvent>, cap: nat, cutoff: int)
  {
    forall e :: e in events && VisibleBy(e, cutoff) && e.startRow < e.endRow ==> e.startRow < cap
  }

  /** The filter keeps the visible rows, in the same order, if and only if every visible block
      starts below the cap; otherwise it drops some of them without any sign. */
  lemma TruncationKeepsVisible(events: seq<InsertEvent>, cap: nat, cutoff: int)
    ensures VisibleRows(Truncate(events, cap), cutoff) == VisibleRows(events, cutoff) <==>
            StartsBelow(events, cap, cutoff)
    ensures !StartsBelow(events, cap, cutoff) ==>
            |VisibleRows(Truncate(events, cap), cutoff)| < |VisibleRows(events, cutoff)|
  {
    VisibleAfterFilter(events, cap, cutoff);
  }

  lemma {:induction false} VisibleAfterFilter(events: seq<InsertEvent>, cap: nat, cutoff: int)
    ensures |VisibleRows(Truncate(events, cap), cutoff)| <= |VisibleRows(events, cutoff)|
    ensures StartsBelow(events, cap, cutoff) ==>
            VisibleRows(Truncate(events, cap), cutoff) == VisibleRows(events, cutoff)
    ensures !StartsBelow(events, cap, cutoff) ==>
            |VisibleRows(Truncate(events, cap), cutoff)| < |VisibleRows(events, cutoff)|
  {
    if events != [] {
      var init, e := events[..|events| - 1], events[|events| - 1];
      VisibleAfterFilter(init, cap, cutoff);
      assert events == init + [e];
      var before := Truncate(init, cap);
      StartsBelowNext(init, e, cap, cutoff);
      NextVisible(init, e, cutoff);
      NextVisible(before, e, cutoff);
      BlockLength(e);
      hide VisibleRows, StartsBelow, Block;
    }
  }

  lemma StartsBelowNext(init: seq<InsertEvent>, e: InsertEvent, cap: nat, cutoff: int)
    ensures StartsBelow(init + [e], cap, cutoff) <==>
            StartsBelow(init, cap, cutoff) && (VisibleBy(e, cutoff) && e.startRow < e.endRow ==> e.startRow < cap)
  {
    assert forall x :: x in init + [e] <==> x in init || x == e;
  }

  lemma NextVisible(init: seq<InsertEvent>, e: InsertEvent, cutoff: int)
    ensures VisibleRows(init + [e], cutoff) ==
            if VisibleBy(e, cutoff) then VisibleRows(init, cutoff) + Block(e) else VisibleRows(init, cutoff)
  {
    assert (init + [e])[..|init|] == init;
    RowsOfSnoc(VisibleEvents(init, cutoff), e);
  }

  lemma BlockLength(e: InsertEvent)
    ensures |Block(e)| == if e.startRow < e.endRow then e.endRow - e.startRow else 0
  {
  }

  // ---------------------------------------------------------------- in bounds

  ghost predicate Straddles(e: InsertEvent, cap: nat)
  {
    e.startRow < cap < e.endRow
  }

  ghost predicate CutsNoBlock(events: seq<InsertEvent>, cap: nat)
  {
    forall e :: e in events && e.ok ==> !Straddles(e, cap)
  }

  /** After cutting both log and matrix at `cap`, indexing stays in bounds exactly when the
      cap cuts no successful block in two. */
  lemma InBoundsIff(events: seq<InsertEvent>, cap: nat)
    ensures (forall e :: e in Truncate(events, cap) && e.ok ==> Fits(e, cap)) <==> CutsNoBlock(events, cap)
  {
    TruncateMembers(events, cap);
    if e :| e in events && e.ok && Straddles(e, cap) {
      assert e in Truncate(events, cap) && !Fits(e, cap);
    }
  }

  /** What the mixed clients' logs guarantee: successful inserts are non-empty blocks and no
      two of them overlap. */
  ghost predicate DisjointInserts(events: seq<InsertEvent>)
  {
    && (forall e :: e in events && e.ok ==> e.startRow < e.endRow)
    && (forall i, j :: 0 <= i < j < |events| && events[i].ok && events[j].ok ==> Disjoint(events[i], events[j]))
  }

  /** The computed limit is the end of a block, so it never cuts another one. */
  lemma LimitCutsNoBlock(events: seq<InsertEvent>, cutoff: int, limit: nat)
    requires DisjointInserts(events) && IsRowLimit(events, cutoff, limit)
    ensures CutsNoBlock(events, limit)
  {
    if limit != 0 {
      var w :| w in events && VisibleBy(w, cutoff) && w.endRow == limit;
      forall e | e in events && e.ok
        ensures !Straddles(e, limit)
      {
        if w != e {
          EventsDisjoint(events, w, e);
        }
      }
    }
  }

  lemma EventsDisjoint(events: seq<InsertEvent>, w: InsertEvent, e: InsertEvent)
    requires DisjointInserts(events) && w in events && e in events && w.ok && e.ok && w != e
    ensures Disjoint(w, e)
  {
    var i :| 0 <= i < |events| && events[i] == w;
    var j :| 0 <= j < |events| && events[j] == e;
    assert i != j;
    if i < j {
      assert Disjoint(events[i], events[j]);
    } else {
      assert Disjoint(events[j], events[i]);
    }
  }

  /** A smaller cap given by the user can cut a block: two rows inserted in one batch and a
      cap of one row make the kept event index past the matrix. */
  lemma SmallCapCutsBlock()
    ensures
      var e := InsertEvent(0, 0, 2, true);
      DisjointInserts([e]) && e in Truncate([e], 1) && !Fits(e, 1)
  {
    var e := InsertEvent(0, 0, 2, true);
    TruncateMembers([e], 1);
    assert e in [e];
  }

  lemma TruncateNext(init: seq<InsertEvent>, e: InsertEvent, cap: nat)
    ensures Truncate(init + [e], cap) ==
            if !e.ok || e.startRow < cap then Truncate(init, cap) + [e] else Truncate(init, cap)
  {
    assert (init + [e])[..|init|] == init;
  }

  /** A cap between two blocks cuts neither, and the rows of the second are gone: two rows were
      visible and the cut log shows one. */
  lemma SmallCapDropsRows()
    ensures
      var e, f := InsertEvent(0, 0, 1, true), InsertEvent(1, 1, 2, true);
      && DisjointInserts([e] + [f]) && CutsNoBlock([e] + [f], 1)
      && VisibleRows([e] + [f], 1) == [0, 1] && VisibleRows(Truncate([e] + [f], 1), 1) == [0]
  {
    var e, f := InsertEvent(0, 0, 1, true), InsertEvent(1, 1, 2, true);
    assert Block(e) == [0] && Block(f) == [1];
    assert VisibleRows([], 1) == [] && Truncate([], 1) == [];
    NextVisible([], e, 1);
    NextVisible([e], f, 1);
    TruncateNext([], e, 1);
    TruncateNext([e], f, 1);
    hide VisibleRows, Truncate, Block;
    assert [] + [e] == [e];
  }

  // -------------------------------------------------- one query, end to end

  /** The corpus once the insert matrix is cut to `cap` rows. */
  function CutCorpus(c: Corpus, cap: nat): Corpus
    requires cap <= |c.insertScores|
  {
    c.(insertScores := c.insertScores[..cap])
  }

  lemma CutKeepsCandidates(c: Corpus, cap: nat, rows: seq<nat>)
    requires cap <= |c.insertScores| && CutCorpus(c, cap).Covers(rows)
    ensures c.Covers(rows) && CutCorpus(c, cap).Candidates(rows) == c.Candidates(rows)
  {
    assert RowCandidates(rows, c.insertScores[..cap], c.insertOffset) ==
        RowCandidates(rows, c.insertScores, c.insertOffset);
  }

  datatype Answer = Failed | Answers(byLag: map<int, seq<Entry>>)

  /** `main`'s reconstruction of one successful query on a log and a matrix cut at `cap`. It is
      right for the whole log and matrix under every lag whose visible blocks start below the
      cap; under any other it answers for fewer rows. */
  method AnswerCut(
      events: seq<InsertEvent>, cap: nat, issuedAt: int, lags: seq<int>, c: Corpus, k: nat, chunk: nat)
    returns (a: Answer)
    requires chunk > 0 && WellFormed(events) && ByCompletion(events)
    ensures a.Answers? <==> cap <= |c.insertScores| && CutsNoBlock(events, cap)
    ensures a.Answers? ==> a.byLag.Keys == set lag | lag in lags
    ensures a.Answers? ==> forall lag :: lag in a.byLag ==>
              AnswerFor(CutCorpus(c, cap), Truncate(events, cap), a.byLag[lag], issuedAt - lag, k)
    ensures a.Answers? ==> forall lag :: lag in a.byLag && StartsBelow(events, cap, issuedAt - lag) ==>
              && AnswerFor(c, events, a.byLag[lag], issuedAt - lag, k)
              && NaturalsOfRight(c, events, a.byLag[lag], issuedAt - lag, k)
              && (c.NaturalIds() ==> RightFor(c, events, a.byLag[lag], issuedAt - lag, k))
  {
    hide AnswerFor, ExactFor, StartsBelow, Truncate, OkEvents, Corpus.NaturalIds, RightFor, NaturalsOfRight;
    if cap > |c.insertScores| {
      return Failed;
    }
    InBoundsIff(events, cap);
    var cut := Truncate(events, cap);
    TruncateMembers(events, cap);
    TruncateSorted(events, cap);
    var ok, exact, counts, order := RecallAnswers(cut, CutCorpus(c, cap), k, chunk, issuedAt, lags);
    a := if ok then Answers(exact) else Failed;
    if ok {
      forall lag | lag in exact && StartsBelow(events, cap, issuedAt - lag)
        ensures AnswerFor(c, events, exact[lag], issuedAt - lag, k)
        ensures NaturalsOfRight(c, events, exact[lag], issuedAt - lag, k)
        ensures c.NaturalIds() ==> RightFor(c, events, exact[lag], issuedAt - lag, k)
      {
        CutAnswerIsFullAnswer(events, c, cap, exact[lag], issuedAt - lag, k);
        AnswerIsExactIff(c, events, exact[lag], issuedAt - lag, k);
        AnswerMeans(c, events, exact[lag], issuedAt - lag, k);
      }
    }
  }

  /** What `main` does for one successful query: compute the limit, cut log and matrix, run
      the reconstruction on what is left. `userCap` is `--insert-max-rows`. Unless the user
      asked for fewer rows than the queries can have seen, the log and the matrix are cut at the
      limit, and every answer is the one that the whole log and the whole matrix define; if he
      did, they are cut where he said. */
  method AnswerQuery(
      events: seq<InsertEvent>, qs: seq<QueryEvent>, q: QueryEvent, lags: seq<int>, userCap: Option<nat>,
      c: Corpus, k: nat, chunk: nat)
    returns (a: Answer, limit: nat)
    requires chunk > 0 && WellFormed(events) && ByCompletion(events)
    requires q in qs && q.ok
    ensures IsRowLimit(events, LastOkIssue(qs).value - MinLag(lags), limit)
    ensures a.Answers? ==> a.byLag.Keys == set lag | lag in lags
    ensures userCap.None? || userCap.value >= limit ==>
              && (a.Answers? <==> limit <= |c.insertScores| && CutsNoBlock(events, limit))
              && (DisjointInserts(events) && limit <= |c.insertScores| ==> a.Answers?)
              && (a.Answers? ==> forall lag :: lag in a.byLag ==>
                    && AnswerFor(c, events, a.byLag[lag], q.issuedAt - lag, k)
                    && NaturalsOfRight(c, events, a.byLag[lag], q.issuedAt - lag, k)
                    && (c.NaturalIds() ==> ExactFor(c, events, a.byLag[lag], q.issuedAt - lag, k))
                    && (c.NaturalIds() ==> RightFor(c, events, a.byLag[lag], q.issuedAt - lag, k)))
    ensures userCap.Some? && userCap.value < limit ==>
              var cap := userCap.value;
              && (a.Answers? <==> cap <= |c.insertScores| && CutsNoBlock(events, cap))
              && (a.Answers? ==> forall lag :: lag in a.byLag ==>
                    && AnswerFor(CutCorpus(c, cap), Truncate(events, cap), a.byLag[lag], q.issuedAt - lag, k)
                    && (StartsBelow(events, cap, q.issuedAt - lag) ==>
                          && AnswerFor(c, events, a.byLag[lag], q.issuedAt - lag, k)
                          && NaturalsOfRight(c, events, a.byLag[lag], q.issuedAt - lag, k)
                          && (c.NaturalIds() ==> RightFor(c, events, a.byLag[lag], q.issuedAt - lag, k))))
  {
    hide AnswerFor, ExactFor, StartsBelow, Corpus.NaturalIds, RightFor, NaturalsOfRight, CutsNoBlock, Truncate;
    hide DisjointInserts, IsRowLimit;
    limit := RecallInsertRowLimit(events, qs, lags);
    var cap := if userCap.None? then limit else Min(userCap.value, limit);
    a := AnswerCut(events, cap, q.issuedAt, lags, c, k, chunk);
    if DisjointInserts(events) {
      LimitCutsNoBlock(events, LastOkIssue(qs).value - MinLag(lags), limit);
    }
    if a.Answers? && cap == limit {
      forall lag | lag in a.byLag
        ensures AnswerFor(c, events, a.byLag[lag], q.issuedAt - lag, k)
        ensures NaturalsOfRight(c, events, a.byLag[lag], q.issuedAt - lag, k)
        ensures c.NaturalIds() ==> ExactFor(c, events, a.byLag[lag], q.issuedAt - lag, k)
        ensures c.NaturalIds() ==> RightFor(c, events, a.byLag[lag], q.issuedAt - lag, k)
      {
        LimitCoversLag(events, qs, q, lags, lag, limit);
        AnswerIsExactIff(c, events, a.byLag[lag], q.issuedAt - lag, k);
      }
    }
  }

  /** Every block visible to a successful query under a requested lag starts below the limit. */
  lemma LimitCoversLag(
      events: seq<InsertEvent>, qs: seq<QueryEvent>, q: QueryEvent, lags: seq<int>, lag: int, limit: nat)
    requires q in qs && q.ok && lag in lags
    requires IsRowLimit(events, LastOkIssue(qs).value - MinLag(lags), limit)
    ensures StartsBelow(events, limit, q.issuedAt - lag)
  {
  }

  lemma CutAnswerIsFullAnswer(
      events: seq<InsertEvent>, c: Corpus, cap: nat, list: seq<Entry>, cutoff: int, k: nat)
    requires cap <= |c.insertScores| && StartsBelow(events, cap, cutoff)
    requires AnswerFor(CutCorpus(c, cap), Truncate(events, cap), list, cutoff, k)
    ensures AnswerFor(c, events, list, cutoff, k)
  {
    TruncationKeepsVisible(events, cap, cutoff);
    CutKeepsCandidates(c, cap, VisibleRows(events, cutoff));
  }
}
