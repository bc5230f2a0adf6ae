/** Recall reconstruction for one query row: the running top-k over all visibility lags, and
    the numbers reported for each lag. Scores of the initial and inserted vectors against the
    query are given as sequences, so every statement holds for every scoring. */
module RecallRun {
  import opened Basics
  import opened TopK
  import opened Visibility

  function InitCandidates(scores: seq<real>, offset: int): seq<Entry>
  {
    seq(|scores|, i requires 0 <= i < |scores| => Entry(Real(scores[i]), offset + i))
  }

  function RowCandidates(rows: seq<nat>, scores: seq<real>, offset: int): seq<Entry>
    requires forall i :: 0 <= i < |rows| ==> rows[i] < |scores|
  {
    seq(|rows|, i requires 0 <= i < |rows| => Entry(Real(scores[rows[i]]), offset + rows[i]))
  }

  /** The corpus of one query and its scores. */
  datatype Corpus = Corpus(
      metric: Metric, initScores: seq<real>, initOffset: int, insertScores: seq<real>, insertOffset: int)
  {
    ghost predicate Covers(rows: seq<nat>)
    {
      forall i :: 0 <= i < |rows| ==> rows[i] < |insertScores|
    }

    /** Everything an exact search would rank when `rows` are visible. */
    ghost function Candidates(rows: seq<nat>): multiset<Entry>
      requires Covers(rows)
    {
      multiset(InitCandidates(initScores, initOffset)) + multiset(RowCandidates(rows, insertScores, insertOffset))
    }

    /** No id that a search could return is negative. */
    predicate NaturalIds()
    {
      && (|initScores| > 0 ==> initOffset >= 0)
      && (|insertScores| > 0 ==> insertOffset >= 0)
    }

    /** `list` is some correct top-k of the candidates, its negative ids left out. */
    ghost predicate ReadsBack(list: seq<Entry>, rows: seq<nat>, k: nat)
      requires Covers(rows)
    {
      exists best: seq<Entry> :: IsTopK(metric, best, Candidates(rows), k) && list == ToLists(best)
    }
  }

  /** Every candidate is scored, and its id names an initial vector or a visible row. */
  lemma CandidateOrigin(c: Corpus, rows: seq<nat>, e: Entry)
    requires c.Covers(rows) && e in c.Candidates(rows)
    ensures e.score.Real?
    ensures (c.initOffset <= e.id < c.initOffset + |c.initScores|) || (e.id - c.insertOffset >= 0
        && e.id - c.insertOffset in rows)
  {
    if e in InitCandidates(c.initScores, c.initOffset) {
      var i :| 0 <= i < |c.initScores| && InitCandidates(c.initScores, c.initOffset)[i] == e;
    } else {
      assert e in RowCandidates(rows, c.insertScores, c.insertOffset);
      var i :| 0 <= i < |rows| && RowCandidates(rows, c.insertScores, c.insertOffset)[i] == e;
      assert rows[i] in rows;
    }
  }

  lemma CandidatesScored(c: Corpus, rows: seq<nat>)
    requires c.Covers(rows)
    ensures AllScored(c.Candidates(rows))
  {
    forall e | e in c.Candidates(rows)
      ensures e.score.Real?
    {
      CandidateOrigin(c, rows, e);
    }
  }

  /** What is read back is a top-k of the visible candidates if and only if it is as long as
      one; with natural ids it always is. */
  lemma ReadBackIsTopK(c: Corpus, list: seq<Entry>, rows: seq<nat>, k: nat)
    requires c.Covers(rows) && c.ReadsBack(list, rows, k)
    ensures IsTopK(c.metric, list, c.Candidates(rows), k) <==> |list| == Min(k, |c.Candidates(rows)|)
    ensures c.NaturalIds() ==> IsTopK(c.metric, list, c.Candidates(rows), k)
  {
    var best: seq<Entry> :| IsTopK(c.metric, best, c.Candidates(rows), k) && list == ToLists(best);
    ToListsDrops(best);
    if c.NaturalIds() {
      forall i | 0 <= i < |best|
        ensures best[i].id >= 0
      {
        KeptIsCandidate(c.metric, best, c.Candidates(rows), k, i);
        CandidateOrigin(c, rows, best[i]);
      }
    }
  }

  /** What is read back has at most k entries, all of them candidates with natural ids. */
  lemma ReadBackMembers(c: Corpus, list: seq<Entry>, rows: seq<nat>, k: nat)
    requires c.Covers(rows) && c.ReadsBack(list, rows, k)
    ensures |list| <= k
    ensures forall e :: e in list ==> e in c.Candidates(rows) && e.id >= 0
  {
    var best: seq<Entry> :| IsTopK(c.metric, best, c.Candidates(rows), k) && list == ToLists(best);
    ToListsDrops(best);
    forall e | e in list
      ensures e in c.Candidates(rows)
    {
      assert e in multiset(best);
    }
  }

  /** Reading back is right for every k, whatever the top-k, if and only if no candidate has
      a negative id. */
  lemma ReadBackExactForAllIff(c: Corpus, rows: seq<nat>)
    requires c.Covers(rows)
    ensures (forall k, list | c.ReadsBack(list, rows, k) :: IsTopK(c.metric, list, c.Candidates(rows), k)) <==>
            forall e :: e in c.Candidates(rows) ==> e.id >= 0
  {
    var cands := c.Candidates(rows);
    if forall e :: e in cands ==> e.id >= 0 {
      forall k, list | c.ReadsBack(list, rows, k)
        ensures IsTopK(c.metric, list, cands, k)
      {
        NaturalReadBack(c, list, rows, k);
      }
    } else {
      var e :| e in cands && e.id < 0;
      var k, list := NegativeIdSpoils(c, rows, e);
    }
  }

  lemma NegativeIdSpoils(c: Corpus, rows: seq<nat>, e: Entry) returns (k: nat, list: seq<Entry>)
    requires c.Covers(rows) && e in c.Candidates(rows) && e.id < 0
    ensures c.ReadsBack(list, rows, k) && !IsTopK(c.metric, list, c.Candidates(rows), k)
  {
    var all := InitCandidates(c.initScores, c.initOffset) + RowCandidates(rows, c.insertScores, c.insertOffset);
    assert multiset(all) == c.Candidates(rows);
    assert e in multiset(all);
    k := |all|;
    var best := WholeRanking(c.metric, all);
    list := ToLists(best);
    assert c.ReadsBack(list, rows, k);
    ToListsDrops(best);
    var i :| 0 <= i < |best| && best[i] == e;
    assert |list| < |best| == Min(k, |c.Candidates(rows)|);
  }

  lemma NaturalReadBack(c: Corpus, list: seq<Entry>, rows: seq<nat>, k: nat)
    requires c.Covers(rows) && c.ReadsBack(list, rows, k)
    requires forall e :: e in c.Candidates(rows) ==> e.id >= 0
    ensures IsTopK(c.metric, list, c.Candidates(rows), k)
  {
    var best: seq<Entry> :| IsTopK(c.metric, best, c.Candidates(rows), k) && list == ToLists(best);
    ToListsDrops(best);
    forall i | 0 <= i < |best|
      ensures best[i].id >= 0
    {
      KeptIsCandidate(c.metric, best, c.Candidates(rows), k, i);
    }
  }

  // -------------------------------------------------------------- lag targets

  datatype Target = Target(count: nat, lag: int)

  ghost predicate ByCount(ts: seq<Target>)
  {
    forall i, j :: 0 <= i < j < |ts| ==> ts[i].count <= ts[j].count
  }

  function InsertTarget(t: Target, ts: seq<Target>): seq<Target>
  {
    if ts == [] then [t]
    else if t.count <= ts[0].count then [t] + ts
    else [ts[0]] + InsertTarget(t, ts[1..])
  }

  function SortTargets(ts: seq<Target>): seq<Target>
  {
    if ts == [] then [] else InsertTarget(ts[0], SortTargets(ts[1..]))
  }

  lemma {:induction false} InsertTargetMembers(t: Target, ts: seq<Target>)
    ensures multiset(InsertTarget(t, ts)) == multiset(ts) + multiset{t}
  {
    if ts != [] && t.count > ts[0].count {
      InsertTargetMembers(t, ts[1..]);
      assert ts == [ts[0]] + ts[1..];
    }
  }

  lemma {:induction false} InsertTargetKeeps(t: Target, ts: seq<Target>)
    requires ByCount(ts)
    ensures ByCount(InsertTarget(t, ts)) && multiset(InsertTarget(t, ts)) == multiset(ts) + multiset{t}
  {
    InsertTargetMembers(t, ts);
    if ts == [] {
    } else if t.count <= ts[0].count {
      SmallestFirst(t, ts);
    } else {
      InsertTargetKeeps(t, ts[1..]);
      var rest := InsertTarget(t, ts[1..]);
      forall j | 0 <= j < |rest|
        ensures ts[0].count <= rest[j].count
      {
        assert rest[j] in multiset(ts[1..]) + multiset{t};
      }
      SmallestFirst(ts[0], rest);
    }
  }

  lemma SmallestFirst(t: Target, ts: seq<Target>)
    requires ByCount(ts) && forall j :: 0 <= j < |ts| ==> t.count <= ts[j].count
    ensures ByCount([t] + ts) && multiset([t] + ts) == multiset(ts) + multiset{t}
  {
  }

  function LagsOf(ts: seq<Target>): set<int>
  {
    set i | 0 <= i < |ts| :: ts[i].lag
  }

  lemma LagsOfNext(ts: seq<Target>, i: nat)
    requires i < |ts|
    ensures LagsOf(ts[..i + 1]) == LagsOf(ts[..i]) + {ts[i].lag}
  {
    assert ts[..i + 1] == ts[..i] + [ts[i]];
    forall lag
      ensures lag in LagsOf(ts[..i + 1]) <==> lag in LagsOf(ts[..i]) + {ts[i].lag}
    {
      if lag in LagsOf(ts[..i]) {
        var j :| 0 <= j < i && ts[..i][j].lag == lag;
        assert ts[..i + 1][j].lag == lag;
      }
      if lag in LagsOf(ts[..i + 1]) {
        var j :| 0 <= j < i + 1 && ts[..i + 1][j].lag == lag;
        assert j < i ==> ts[..i][j].lag == lag;
      }
      assert ts[..i + 1][i].lag == ts[i].lag;
    }
  }

  lemma {:induction false} SortTargetsSorts(ts: seq<Target>)
    ensures ByCount(SortTargets(ts)) && multiset(SortTargets(ts)) == multiset(ts)
  {
    if ts != [] {
      SortTargetsSorts(ts[1..]);
      InsertTargetKeeps(ts[0], SortTargets(ts[1..]));
      assert ts == [ts[0]] + ts[1..];
    }
  }

  /** What `build_insert_visibility_index` hands to the query loop. */
  ghost predicate UsableIndex(times: seq<int>, offsets: seq<nat>, allRows: seq<nat>)
  {
    && |offsets| == |times| + 1
    && forall i :: 0 <= i < |offsets| ==> offsets[i] <= |allRows|
  }

  /** The (visible count, lag) pairs of a query, ordered by visible count. */
  method LagTargets(times: seq<int>, offsets: seq<nat>, allRows: seq<nat>, issuedAt: int, lags: seq<int>)
    returns (targets: seq<Target>)
    requires UsableIndex(times, offsets, allRows)
    ensures ByCount(targets)
    ensures forall t :: t in targets ==> t.count == VisibleInsertCount(times, offsets, issuedAt, t.lag)
    ensures LagsOf(targets) == set lag | lag in lags
  {
    var pairs := [];
    for i := 0 to |lags|
      invariant |pairs| == i
      invariant forall j :: 0 <= j < i ==>
                  pairs[j] == Target(VisibleInsertCount(times, offsets, issuedAt, lags[j]), lags[j])
    {
      pairs := pairs + [Target(VisibleInsertCount(times, offsets, issuedAt, lags[i]), lags[i])];
    }
    SortTargetsSorts(pairs);
    targets := SortTargets(pairs);
    forall t
      ensures t in targets <==> t in pairs
    {
      assert t in multiset(targets) <==> t in multiset(pairs);
    }
    forall lag
      ensures lag in lags <==> lag in LagsOf(targets)
    {
      if lag in lags {
        var j :| 0 <= j < |lags| && lags[j] == lag;
        assert pairs[j] in targets;
      }
      if lag in LagsOf(targets) {
        var i :| 0 <= i < |targets| && targets[i].lag == lag;
        assert targets[i] in pairs;
      }
    }
  }

  // ------------------------------------------------------- what an answer means

  /** Where an entry of an answer comes from: an initial vector, or a place in a list of rows. */
  datatype Origin = Init(j: nat) | Inserted(p: nat)

  ghost predicate IsOrigin(c: Corpus, rows: seq<nat>, o: Origin)
  {
    match o
    case Init(j) => j < |c.initScores|
    case Inserted(p) => p < |rows| && rows[p] < |c.insertScores|
  }

  /** A vector's own score and its own id. */
  ghost function EntryOf(c: Corpus, rows: seq<nat>, o: Origin): Entry
    requires IsOrigin(c, rows, o)
  {
    match o
    case Init(j) => Entry(Real(c.initScores[j]), c.initOffset + j)
    case Inserted(p) => Entry(Real(c.insertScores[rows[p]]), c.insertOffset + rows[p])
  }

  /** L2 keeps the smaller distance, the others the larger similarity. */
  ghost predicate AtLeastAsGood(m: Metric, a: Entry, b: Entry)
  {
    && a.score.Real? && b.score.Real?
    && if m.L2? then a.score.value <= b.score.value else a.score.value >= b.score.value
  }

  /** `best` holds k vectors, or all if there are fewer, each once and with its own score and id,
      in order, and no vector left out is better than one of them. */
  ghost predicate Chosen(c: Corpus, rows: seq<nat>, best: seq<Entry>, from: seq<Origin>, k: nat)
  {
    && |from| == |best| == (if k < |c.initScores| + |rows| then k else |c.initScores| + |rows|)
    && NoRepeats(from)
    && (forall i :: 0 <= i < |best| ==> IsOrigin(c, rows, from[i]) && best[i] == EntryOf(c, rows, from[i]))
    && (forall i, j :: 0 <= i < j < |best| ==> AtLeastAsGood(c.metric, best[i], best[j]))
    && (forall i, o :: 0 <= i < |best| && IsOrigin(c, rows, o) && o !in from ==>
          AtLeastAsGood(c.metric, best[i], EntryOf(c, rows, o)))
  }

  /** `list` is `best` without the entries whose id is negative, in the same order. */
  ghost predicate NaturalPart(list: seq<Entry>, best: seq<Entry>, kept: seq<nat>)
  {
    && TakesPlaces(list, best, kept)
    && (forall p: nat :: p < |best| ==> (p in kept <==> best[p].id >= 0))
  }

  /** All candidates in one list, the initial vectors first. */
  ghost function AllCandidates(c: Corpus, rows: seq<nat>): (all: seq<Entry>)
    requires c.Covers(rows)
    ensures |all| == |c.initScores| + |rows|
  {
    InitCandidates(c.initScores, c.initOffset) + RowCandidates(rows, c.insertScores, c.insertOffset)
  }

  ghost function OriginAt(c: Corpus, q: nat): Origin
  {
    if q < |c.initScores| then Init(q) else Inserted(q - |c.initScores|)
  }

  lemma CandidateAt(c: Corpus, rows: seq<nat>, q: nat)
    requires c.Covers(rows) && q < |c.initScores| + |rows|
    ensures IsOrigin(c, rows, OriginAt(c, q))
    ensures AllCandidates(c, rows)[q] == EntryOf(c, rows, OriginAt(c, q))
  {
  }

  lemma OriginPlace(c: Corpus, rows: seq<nat>, o: Origin) returns (q: nat)
    requires IsOrigin(c, rows, o)
    ensures q < |c.initScores| + |rows| && OriginAt(c, q) == o
  {
    q := match o case Init(j) => j case Inserted(p) => |c.initScores| + p;
  }

  lemma RankedMeans(m: Metric, a: Entry, b: Entry)
    requires a.score.Real? && b.score.Real? && NoWorse(m, a.score, b.score)
    ensures AtLeastAsGood(m, a, b)
  {
  }

  ghost function Origins(c: Corpus, at: seq<nat>): (from: seq<Origin>)
    ensures |from| == |at|
  {
    seq(|at|, i requires 0 <= i < |at| => OriginAt(c, at[i]))
  }

  lemma OriginsDistinct(c: Corpus, at: seq<nat>)
    requires NoRepeats(at)
    ensures NoRepeats(Origins(c, at))
  {
  }

  /** A vector that none of the entries comes from is at another place of the list. */
  lemma OtherOrigin(c: Corpus, rows: seq<nat>, at: seq<nat>, o: Origin) returns (q: nat)
    requires c.Covers(rows) && IsOrigin(c, rows, o) && o !in Origins(c, at)
    ensures q < |c.initScores| + |rows| && q !in at && AllCandidates(c, rows)[q] == EntryOf(c, rows, o)
  {
    q := OriginPlace(c, rows, o);
    CandidateAt(c, rows, q);
    forall p | 0 <= p < |at|
      ensures at[p] != q
    {
      assert Origins(c, at)[p] in Origins(c, at);
    }
  }

  lemma KeptInOrder(m: Metric, best: seq<Entry>, i: nat, j: nat)
    requires Ranked(m, best) && i < j < |best| && best[i].score.Real? && best[j].score.Real?
    ensures AtLeastAsGood(m, best[i], best[j])
  {
    RankedMeans(m, best[i], best[j]);
  }

  /** A top-k of the candidates, place by place. */
  lemma TopKIsChosen(c: Corpus, rows: seq<nat>, best: seq<Entry>, k: nat) returns (from: seq<Origin>)
    requires c.Covers(rows) && IsTopK(c.metric, best, c.Candidates(rows), k)
    ensures Chosen(c, rows, best, from, k)
  {
    var all := AllCandidates(c, rows);
    var cands := c.Candidates(rows);
    assert multiset(all) == cands;
    assert |cands| == |all|;
    var at := Placement(best, all);
    from := Origins(c, at);
    OriginsDistinct(c, at);
    hide AllCandidates, NoWorse, Origins, EntryOf, AtLeastAsGood, NoRepeats, Corpus.Covers, Corpus.Candidates;
    forall i | 0 <= i < |best|
      ensures IsOrigin(c, rows, from[i]) && best[i] == EntryOf(c, rows, from[i]) && best[i].score.Real?
    {
      CandidateAt(c, rows, at[i]);
      OriginScored(c, rows, from[i]);
    }
    forall i, j | 0 <= i < j < |best|
      ensures AtLeastAsGood(c.metric, best[i], best[j])
    {
      KeptInOrder(c.metric, best, i, j);
    }
    forall i, o | 0 <= i < |best| && IsOrigin(c, rows, o) && o !in from
      ensures AtLeastAsGood(c.metric, best[i], EntryOf(c, rows, o))
    {
      var q := OtherOrigin(c, rows, at, o);
      OriginScored(c, rows, o);
      assert all[q] in cands - multiset(best);
      RankedMeans(c.metric, best[i], all[q]);
    }
  }

  lemma OriginScored(c: Corpus, rows: seq<nat>, o: Origin)
    requires IsOrigin(c, rows, o)
    ensures EntryOf(c, rows, o).score.Real?
  {
  }

  // --------------------------------------------------------- the running top-k

  /** A running state: the best of the initial vectors and the rows, and fillers behind. */
  ghost predicate BestSoFar(c: Corpus, rows: seq<nat>, running: seq<Entry>, k: nat)
  {
    exists n, from ::
      && 0 <= n <= |running| == k && Chosen(c, rows, running[..n], from, k)
      && forall i :: n <= i < k ==> running[i] == PAD
  }

  lemma RunningMeans(c: Corpus, rows: seq<nat>, k: nat, running: seq<Entry>)
    requires c.Covers(rows) && IsTopK(c.metric, running, c.Candidates(rows) + multiset(Pads(k)), k)
    ensures BestSoFar(c, rows, running, k)
  {
    CandidatesScored(c, rows);
    var n := WithoutPads(c.metric, running, c.Candidates(rows), k);
    var from := TopKIsChosen(c, rows, running[..n], k);
  }

  /** The initial vectors, in chunks of at most `chunk`. */
  method RankInit(c: Corpus, k: nat, chunk: nat) returns (running: seq<Entry>)
    requires chunk > 0
    ensures forall allRows :: RunningFor(c, k, allRows, 0, running)
    ensures BestSoFar(c, [], running, k)
  {
    var init := InitCandidates(c.initScores, c.initOffset);
    running := Pads(k);
    FreshState(c.metric, k);
    var start := 0;
    assert init[..0] == [];
    while start < |init|
      invariant start <= |init|
      invariant IsTopK(c.metric, running, multiset(init[..start]) + multiset(Pads(k)), k)
    {
      var end := Min(start + chunk, |init|);
      running := UpdateTopk(c.metric, running, init[start..end], k, multiset(init[..start]) + multiset(Pads(k)));
      assert init[..end] == init[..start] + init[start..end];
      assert multiset(init[..end]) + multiset(Pads(k))
          == multiset(init[..start]) + multiset(Pads(k)) + multiset(init[start..end]);
      start := end;
    }
    assert init[..start] == init;
    assert RowCandidates([], c.insertScores, c.insertOffset) == [];
    assert c.Candidates([]) == multiset(init);
    forall allRows: seq<nat>
      ensures RunningFor(c, k, allRows, 0, running)
    {
      assert allRows[..0] == [];
    }
    RunningMeans(c, [], k, running);
  }

  lemma MoreRows(c: Corpus, rows: seq<nat>, i: nat, j: nat)
    requires i <= j <= |rows| && c.Covers(rows)
    ensures c.Covers(rows[..i]) && c.Covers(rows[..j]) && c.Covers(rows[i..j])
    ensures c.Candidates(rows[..j])
         == c.Candidates(rows[..i]) + multiset(RowCandidates(rows[i..j], c.insertScores, c.insertOffset))
  {
    var all := RowCandidates(rows[..j], c.insertScores, c.insertOffset);
    assert all == RowCandidates(rows[..i], c.insertScores, c.insertOffset)
                + RowCandidates(rows[i..j], c.insertScores, c.insertOffset);
  }

  /** `running` is the padded top-k of the initial vectors and the first `n` rows. */
  ghost predicate RunningFor(c: Corpus, k: nat, allRows: seq<nat>, n: nat, running: seq<Entry>)
  {
    && n <= |allRows| && c.Covers(allRows[..n])
    && IsTopK(c.metric, running, c.Candidates(allRows[..n]) + multiset(Pads(k)), k)
  }

  /** Extend the running state from one visible prefix to a longer one, chunk by chunk. */
  method ExtendTo(c: Corpus, k: nat, chunk: nat, allRows: seq<nat>, from: nat, target: nat, before: seq<Entry>)
    returns (running: seq<Entry>, processed: nat)
    requires chunk > 0 && c.Covers(allRows) && target <= |allRows|
    requires RunningFor(c, k, allRows, from, before)
    ensures processed == (if from < target then target else from)
    ensures RunningFor(c, k, allRows, processed, running)
    ensures BestSoFar(c, allRows[..processed], running, k)
  {
    running, processed := before, from;
    while processed < target
      invariant from <= processed <= (if from < target then target else from)
      invariant RunningFor(c, k, allRows, processed, running)
    {
      var next := Min(processed + chunk, target);
      MoreRows(c, allRows, processed, next);
      var cands := RowCandidates(allRows[processed..next], c.insertScores, c.insertOffset);
      ghost var A := c.Candidates(allRows[..processed]) + multiset(Pads(k));
      running := UpdateTopk(c.metric, running, cands, k, A);
      assert c.Candidates(allRows[..next]) + multiset(Pads(k)) == A + multiset(cands);
      processed := next;
    }
    RunningMeans(c, allRows[..processed], k, running);
  }

  /** `list` comes from a correct top-k over the first `n` rows and the initial vectors. */
  ghost predicate Served(c: Corpus, k: nat, allRows: seq<nat>, n: nat, list: seq<Entry>)
  {
    n <= |allRows| && c.Covers(allRows[..n]) && c.ReadsBack(list, allRows[..n], k)
  }

  lemma RunningServes(c: Corpus, k: nat, allRows: seq<nat>, n: nat, running: seq<Entry>)
    requires RunningFor(c, k, allRows, n, running)
    ensures Served(c, k, allRows, n, ToLists(running))
  {
    CandidatesScored(c, allRows[..n]);
    var best := ReadBackOfRunning(c.metric, running, c.Candidates(allRows[..n]), k);
    assert c.ReadsBack(ToLists(running), allRows[..n], k);
  }

  /** The body of `process_query_event` that fills `exact_cache`, for one query row: one
      running state, extended lag by lag in order of visible count and read back at each.
      However rows are chunked and however equal scores are ordered, the list stored for a
      lag comes from a correct top-k of exactly the rows visible under that lag. */
  method ExactByLag(c: Corpus, k: nat, chunk: nat, times: seq<int>, offsets: seq<nat>, allRows: seq<nat>,
                    issuedAt: int, lags: seq<int>)
    returns (exact: map<int, seq<Entry>>)
    requires chunk > 0 && UsableIndex(times, offsets, allRows) && c.Covers(allRows)
    ensures exact.Keys == set lag | lag in lags
    ensures forall lag :: lag in exact ==>
              Served(c, k, allRows, VisibleInsertCount(times, offsets, issuedAt, lag), exact[lag])
  {
    hide RunningFor, Served, ToLists;
    var targets := LagTargets(times, offsets, allRows, issuedAt, lags);
    var running := RankInit(c, k, chunk);
    var processed := 0;
    exact := map[];
    assert LagsOf(targets[..0]) == {};
    for i := 0 to |targets|
      invariant processed <= |allRows|
      invariant processed == if i == 0 then 0 else targets[i - 1].count
      invariant RunningFor(c, k, allRows, processed, running)
      invariant exact.Keys == LagsOf(targets[..i])
      invariant forall lag :: lag in exact ==>
                  Served(c, k, allRows, VisibleInsertCount(times, offsets, issuedAt, lag), exact[lag])
    {
      var t := targets[i];
      assert t in targets;
      running, processed := ExtendTo(c, k, chunk, allRows, processed, t.count, running);
      assert processed == t.count;
      RunningServes(c, k, allRows, t.count, running);
      exact := exact[t.lag := ToLists(running)];
      LagsOfNext(targets, i);
    }
    assert targets[..|targets|] == targets;
  }

  // ------------------------------------------------------------ whole pipeline

  lemma IndexIsUsable(es: seq<InsertEvent>)
    ensures UsableIndex(Times(es), Offsets(es), Rows(es))
  {
    forall i | 0 <= i <= |es|
      ensures |Rows(es[..i])| <= |Rows(es)|
    {
      RowsOfPrefix(es, i);
    }
  }

  /** A list of results is right for a query issued at a time, under a lag: a top-k of the
      initial vectors and of the rows whose insert had completed by then. */
  ghost predicate ExactFor(c: Corpus, events: seq<InsertEvent>, list: seq<Entry>, cutoff: int, k: nat)
  {
    c.Covers(VisibleRows(events, cutoff)) && IsTopK(c.metric, list, c.Candidates(VisibleRows(events, cutoff)), k)
  }

  /** The list is such an answer, its negative ids left out. */
  ghost predicate AnswerFor(c: Corpus, events: seq<InsertEvent>, list: seq<Entry>, cutoff: int, k: nat)
  {
    c.Covers(VisibleRows(events, cutoff)) && c.ReadsBack(list, VisibleRows(events, cutoff), k)
  }

  /** Nothing was left out, and the answer is right, exactly when the list is full; no id that
      a search could return being negative is enough for that. */
  lemma AnswerIsExactIff(c: Corpus, events: seq<InsertEvent>, list: seq<Entry>, cutoff: int, k: nat)
    requires AnswerFor(c, events, list, cutoff, k)
    ensures ExactFor(c, events, list, cutoff, k) <==> |list| == Min(k, |c.Candidates(VisibleRows(events, cutoff))|)
    ensures c.NaturalIds() ==> ExactFor(c, events, list, cutoff, k)
  {
    ReadBackIsTopK(c, list, VisibleRows(events, cutoff), k);
  }

  /** `rows` lists each row as often as it was inserted by the cutoff. */
  ghost predicate ListsVisible(rows: seq<nat>, events: seq<InsertEvent>, cutoff: int)
  {
    forall row: nat :: multiset(rows)[row] == TimesIn(events, cutoff, row)
  }

  /** `list` is the exact answer to a query that sees what had been inserted by the cutoff. */
  ghost predicate RightFor(c: Corpus, events: seq<InsertEvent>, list: seq<Entry>, cutoff: int, k: nat)
  {
    exists rows, from :: ListsVisible(rows, events, cutoff) && Chosen(c, rows, list, from, k)
  }

  /** It is one with the negative ids left out. */
  ghost predicate NaturalsOfRight(c: Corpus, events: seq<InsertEvent>, list: seq<Entry>, cutoff: int, k: nat)
  {
    exists best, kept :: RightFor(c, events, best, cutoff, k) && NaturalPart(list, best, kept)
  }

  lemma VisibleListed(events: seq<InsertEvent>, cutoff: int)
    ensures ListsVisible(VisibleRows(events, cutoff), events, cutoff)
  {
    forall row: nat
      ensures multiset(VisibleRows(events, cutoff))[row] == TimesIn(events, cutoff, row)
    {
      VisibleRowCount(events, cutoff, row);
    }
  }

  lemma {:induction false} ReadBackPlaces(best: seq<Entry>) returns (kept: seq<nat>)
    ensures NaturalPart(ToLists(best), best, kept)
  {
    if best == [] {
      kept := [];
    } else {
      var n := |best| - 1;
      ToListsSnoc(best[..n], best[n]);
      assert best[..n] + [best[n]] == best;
      kept := ReadBackPlaces(best[..n]);
      kept := NextKept(ToLists(best[..n]), best[..n], kept, best[n]);
    }
  }

  lemma {:induction false} ToListsSnoc(r: seq<Entry>, e: Entry)
    ensures ToLists(r + [e]) == if e.id >= 0 then ToLists(r) + [e] else ToLists(r)
  {
    if r == [] {
      assert [] + [e] == [e] && [e][1..] == [];
    } else {
      ToListsSnoc(r[1..], e);
      assert (r + [e])[1..] == r[1..] + [e];
    }
  }

  lemma NextKept(list: seq<Entry>, best: seq<Entry>, before: seq<nat>, e: Entry) returns (kept: seq<nat>)
    requires NaturalPart(list, best, before)
    ensures NaturalPart(if e.id >= 0 then list + [e] else list, best + [e], kept)
  {
    TakesLast(list, best, before, e);
    hide TakesPlaces;
    kept := if e.id >= 0 then before + [|best|] else before;
  }

  /** So much for an answer. */
  lemma AnswerMeans(c: Corpus, events: seq<InsertEvent>, list: seq<Entry>, cutoff: int, k: nat)
    requires AnswerFor(c, events, list, cutoff, k)
    ensures NaturalsOfRight(c, events, list, cutoff, k)
    ensures ExactFor(c, events, list, cutoff, k) ==> RightFor(c, events, list, cutoff, k)
  {
    var rows := VisibleRows(events, cutoff);
    hide VisibleRows, Corpus.Covers, IsTopK, Corpus.Candidates, NaturalPart, Chosen;
    VisibleListed(events, cutoff);
    var best: seq<Entry> :| IsTopK(c.metric, best, c.Candidates(rows), k) && list == ToLists(best);
    var from := TopKIsChosen(c, rows, best, k);
    var kept := ReadBackPlaces(best);
    if ExactFor(c, events, list, cutoff, k) {
      var whole := TopKIsChosen(c, rows, list, k);
    }
  }

  /** From the log to the answers: index the events, then serve every lag from one running
      state. The result is the exact answer, lag by lag, both as a top-k of candidates and told
      from the scores, the ids and the log alone; `order` is the inverse that the report needs. */
  method RecallAnswers(events: seq<InsertEvent>, c: Corpus, k: nat, chunk: nat, issuedAt: int, lags: seq<int>)
    returns (ok: bool, exact: map<int, seq<Entry>>, counts: map<int, nat>, order: seq<int>)
    requires chunk > 0 && WellFormed(events) && ByCompletion(events)
    ensures ok <==> forall e :: e in events && e.ok ==> Fits(e, |c.insertScores|)
    ensures ok ==> exact.Keys == (set lag | lag in lags) == counts.Keys
    ensures ok ==> forall lag :: lag in exact ==> AnswerFor(c, events, exact[lag], issuedAt - lag, k)
    ensures ok && c.NaturalIds() ==> forall lag :: lag in exact ==> ExactFor(c, events, exact[lag], issuedAt - lag, k)
    ensures ok ==> forall lag :: lag in exact ==> NaturalsOfRight(c, events, exact[lag], issuedAt - lag, k)
    ensures ok && c.NaturalIds() ==> forall lag :: lag in exact ==> RightFor(c, events, exact[lag], issuedAt - lag, k)
    ensures ok ==> forall lag :: lag in counts ==> CountsVisible(events, counts[lag], issuedAt - lag)
    ensures ok ==> InverseOf(order, Rows(OkEvents(events))) && |order| == |c.insertScores|
  {
    hide Served, ExactFor, AnswerFor, CountsVisible, InverseOf, Times, Offsets, Rows, Fits, Corpus.NaturalIds;
    hide RightFor, NaturalsOfRight;
    exact, counts, order := map[], map[], [];
    var times, offsets, allRows, places;
    ok, times, offsets, allRows, places := BuildInsertVisibilityIndex(events, |c.insertScores|);
    if !ok {
      return;
    }
    order := places[..];
    FittingRows(events, |c.insertScores|);
    assert forall i :: 0 <= i < |allRows| ==> allRows[i] in allRows;
    IndexIsUsable(OkEvents(events));
    exact := ExactByLag(c, k, chunk, times, offsets, allRows, issuedAt, lags);
    counts := map lag | lag in exact :: VisibleInsertCount(times, offsets, issuedAt, lag);
    forall lag | lag in exact
      ensures AnswerFor(c, events, exact[lag], issuedAt - lag, k)
      ensures NaturalsOfRight(c, events, exact[lag], issuedAt - lag, k)
      ensures c.NaturalIds() ==> ExactFor(c, events, exact[lag], issuedAt - lag, k)
      ensures c.NaturalIds() ==> RightFor(c, events, exact[lag], issuedAt - lag, k)
      ensures CountsVisible(events, counts[lag], issuedAt - lag)
    {
      ServedIsAnswer(events, c, k, issuedAt, lag, exact[lag]);
      AnswerIsExactIff(c, events, exact[lag], issuedAt - lag, k);
      AnswerMeans(c, events, exact[lag], issuedAt - lag, k);
    }
  }

  /** `n` counts the rows visible by a cutoff, which are the first `n` listed. */
  ghost predicate CountsVisible(events: seq<InsertEvent>, n: nat, cutoff: int)
  {
    n <= |Rows(OkEvents(events))| && Rows(OkEvents(events))[..n] == VisibleRows(events, cutoff)
  }

  lemma ServedIsAnswer(events: seq<InsertEvent>, c: Corpus, k: nat, issuedAt: int, lag: int, list: seq<Entry>)
    requires ByCompletion(events)
    requires
      var ok := OkEvents(events);
      Served(c, k, Rows(ok), VisibleInsertCount(Times(ok), Offsets(ok), issuedAt, lag), list)
    ensures AnswerFor(c, events, list, issuedAt - lag, k)
    ensures
      var ok := OkEvents(events);
      CountsVisible(events, VisibleInsertCount(Times(ok), Offsets(ok), issuedAt, lag), issuedAt - lag)
  {
    PrefixIsVisible(events, issuedAt, lag);
  }

  lemma FittingRows(events: seq<InsertEvent>, n: nat)
    requires forall e :: e in events && e.ok ==> Fits(e, n)
    ensures forall r :: r in Rows(OkEvents(events)) ==> r < n
  {
    OkEventsFrom(events);
    forall r | r in Rows(OkEvents(events))
      ensures r < n
    {
      RowsMembers(OkEvents(events), r);
      var i :| 0 <= i < |OkEvents(events)| && OkEvents(events)[i].startRow <= r < OkEvents(events)[i].endRow;
      assert OkEvents(events)[i] in OkEvents(events);
    }
  }
}
