/** The numbers reported for one query row under one visibility lag. */
module RecallReport {
  import opened Basics
  import opened TopK
  import opened Visibility
  import opened RecallRun
  import opened Truncation

  function Take<T>(s: seq<T>, k: nat): seq<T>
  {
    if |s| <= k then s else s[..k]
  }

  lemma TakeLength(s: seq<int>, k: nat)
    ensures |Take(s, k)| <= k && |Take(s, k)| <= |s|
  {
  }

  function Ids(s: seq<Entry>): seq<int>
  {
    seq(|s|, i requires 0 <= i < |s| => s[i].id)
  }

  function SetOf(s: seq<int>): set<int>
  {
    set i | 0 <= i < |s| :: s[i]
  }

  /** What decides whether an id was visible to a query under one lag. */
  datatype View = View(initOffset: int, initCount: nat, insertOffset: int, visibleCount: nat, order: seq<int>)
  {
    predicate Shows(id: int)
    {
      IsIdVisible(id, initOffset, initCount, insertOffset, visibleCount, order)
    }
  }

  /** The visible ids among the first `n` returned ones. */
  function VisibleAmong(ids: seq<int>, n: nat, v: View): seq<int>
    requires n <= |ids|
  {
    if n == 0 then []
    else
      var before := VisibleAmong(ids, n - 1, v);
      if v.Shows(ids[n - 1]) then before + [ids[n - 1]] else before
  }

  function HiddenAmong(ids: seq<int>, n: nat, v: View): seq<int>
    requires n <= |ids|
  {
    if n == 0 then []
    else
      var before := HiddenAmong(ids, n - 1, v);
      if v.Shows(ids[n - 1]) then before else before + [ids[n - 1]]
  }

  datatype Report = Report(
      overlap: nat, visibleIds: seq<int>, visibleOverlap: nat, recall: real, precision: Option<real>, tooNew: int,
      missing: nat)

  function DenomFor(k: nat, expected: seq<Entry>): nat
  {
    if expected != [] then Min(k, |expected|) else k
  }

  /** The body of the innermost loop of `process_query_event`. `zip` stops at the shorter of
      ids and scores. */
  function Assess(actualIds: seq<int>, scoreCount: nat, expected: seq<Entry>, k: nat, v: View): Report
  {
    var actual := Take(actualIds, k);
    var wanted := SetOf(Ids(Take(expected, k)));
    var visible := VisibleAmong(actual, Min(|actual|, Min(k, scoreCount)), v);
    var overlap := |SetOf(actual) * wanted|;
    var visibleOverlap := |SetOf(visible) * wanted|;
    var denom := DenomFor(k, expected);
    var recall := if denom > 0 then overlap as real / denom as real else 1.0;
    var precision := if visible != [] then Some(visibleOverlap as real / |visible| as real) else None;
    var missing := |Take(expected, k)| - visibleOverlap;
    Report(overlap, visible, visibleOverlap, recall, precision, |actual| - |visible|,
           if missing > 0 then missing else 0)
  }

  lemma {:induction false} VisibleAmongMembers(ids: seq<int>, n: nat, v: View, id: int)
    requires n <= |ids|
    ensures id in VisibleAmong(ids, n, v) <==> id in ids[..n] && v.Shows(id)
  {
    if n > 0 {
      VisibleAmongMembers(ids, n - 1, v, id);
      assert ids[..n] == ids[..n - 1] + [ids[n - 1]];
    }
  }

  lemma {:induction false} VisiblePlusHidden(ids: seq<int>, n: nat, v: View)
    requires n <= |ids|
    ensures |VisibleAmong(ids, n, v)| + |HiddenAmong(ids, n, v)| == n
  {
    if n > 0 {
      VisiblePlusHidden(ids, n - 1, v);
    }
  }

  lemma SetOfSize(s: seq<int>)
    ensures |SetOf(s)| <= |s|
  {
    if s != [] {
      var n := |s| - 1;
      SetOfSize(s[..n]);
      assert SetOf(s) == SetOf(s[..n]) + {s[n]} by {
        forall x | x in SetOf(s)
          ensures x in SetOf(s[..n]) + {s[n]}
        {
          var i :| 0 <= i < |s| && s[i] == x;
          assert i < n ==> s[..n][i] == x;
        }
      }
    }
  }

  /** A list without repetitions, and only such a list, has as many members as places. */
  lemma {:induction false} SetOfDistinct(s: seq<int>)
    ensures NoRepeats(s) <==> |SetOf(s)| == |s|
  {
    if s != [] {
      var n := |s| - 1;
      SetOfDistinct(s[..n]);
      SetOfSize(s[..n]);
      SetOfSnoc(s);
      if NoRepeats(s) {
        assert s[n] !in SetOf(s[..n]);
      }
      if |SetOf(s)| == |s| {
        assert s[n] !in SetOf(s[..n]);
      }
    }
  }

  lemma SetOfSnoc(s: seq<int>)
    requires s != []
    ensures SetOf(s) == SetOf(s[..|s| - 1]) + {s[|s| - 1]}
    ensures s[|s| - 1] in SetOf(s[..|s| - 1]) ==> SetOf(s) == SetOf(s[..|s| - 1])
  {
    var n := |s| - 1;
    forall x | x in SetOf(s)
      ensures x in SetOf(s[..n]) + {s[n]}
    {
      var i :| 0 <= i < |s| && s[i] == x;
      assert i < n ==> s[..n][i] == x;
    }
  }

  /** The exact answer never holds an id the query could not see, whatever the ids are. */
  lemma ExpectedAreVisible(c: Corpus, rows: seq<nat>, n: nat, expected: seq<Entry>, k: nat, v: View)
    requires n <= |rows| && c.Covers(rows[..n]) && c.ReadsBack(expected, rows[..n], k)
    requires InverseOf(v.order, rows) && NoRepeats(rows) && (forall r :: r in rows ==> r < |v.order|)
    requires v.initOffset == c.initOffset && v.initCount == |c.initScores|
    requires v.insertOffset == c.insertOffset && v.visibleCount == n
    ensures forall id :: id in Ids(expected) ==> v.Shows(id)
  {
    hide Corpus.Covers, Corpus.Candidates, Corpus.ReadsBack;
    forall id | id in Ids(expected)
      ensures v.Shows(id)
    {
      IdsAreCandidates(c, rows[..n], expected, k, id);
      VisibleIdsExact(id, v.initOffset, v.initCount, v.insertOffset, v.order, rows, n);
    }
  }

  lemma IdsAreCandidates(c: Corpus, rows: seq<nat>, expected: seq<Entry>, k: nat, id: int)
    requires c.Covers(rows) && c.ReadsBack(expected, rows, k) && id in Ids(expected)
    ensures
      || (c.initOffset <= id < c.initOffset + |c.initScores|)
      || (id - c.insertOffset >= 0 && id - c.insertOffset in rows)
  {
    hide IsTopK, Corpus.ReadsBack, Corpus.Candidates;
    var i :| 0 <= i < |expected| && Ids(expected)[i] == id;
    ReadBackMembers(c, expected, rows, k);
    assert expected[i] in expected;
    CandidateOrigin(c, rows, expected[i]);
  }

  /** Counting only the returned ids that were visible loses none of the hits: whatever the
      exact answer and the returned ids have in common was visible. */
  lemma OverlapIsVisibleOverlap(actualIds: seq<int>, scoreCount: nat, expected: seq<Entry>, k: nat, v: View)
    requires |expected| <= k && scoreCount >= |Take(actualIds, k)|
    requires forall id :: id in Ids(expected) ==> v.Shows(id)
    ensures Assess(actualIds, scoreCount, expected, k, v).overlap
         == Assess(actualIds, scoreCount, expected, k, v).visibleOverlap
  {
    var actual := Take(actualIds, k);
    var wanted := SetOf(Ids(expected));
    var visible := VisibleAmong(actual, |actual|, v);
    assert actual[..|actual|] == actual;
    forall id
      ensures id in SetOf(actual) * wanted <==> id in SetOf(visible) * wanted
    {
      VisibleAmongMembers(actual, |actual|, v, id);
      InSetOf(actual, id);
      InSetOf(visible, id);
      InSetOf(Ids(expected), id);
    }
    assert SetOf(actual) * wanted == SetOf(visible) * wanted;
  }

  lemma InSetOf(s: seq<int>, x: int)
    ensures x in SetOf(s) <==> x in s
  {
    if x in s {
      var i :| 0 <= i < |s| && s[i] == x;
    }
  }

  /** Recall is a proportion, and the returned ids split into the visible ones and those
      that were too new. */
  lemma RecallIsProportion(actualIds: seq<int>, scoreCount: nat, expected: seq<Entry>, k: nat, v: View)
    requires |expected| <= k
    ensures
      var r := Assess(actualIds, scoreCount, expected, k, v);
      && 0.0 <= r.recall <= 1.0
      && r.visibleOverlap <= r.overlap
      && (scoreCount >= |Take(actualIds, k)| ==> r.tooNew == |HiddenAmong(Take(actualIds, k), |Take(actualIds, k)|, v)|)
  {
    var actual := Take(actualIds, k);
    var wanted := SetOf(Ids(expected));
    SubsetSize(SetOf(actual) * wanted, wanted);
    SetOfSize(Ids(expected));
    var n := Min(|actual|, Min(k, scoreCount));
    var visible := VisibleAmong(actual, n, v);
    forall id | id in SetOf(visible) * wanted
      ensures id in SetOf(actual) * wanted
    {
      VisibleAmongMembers(actual, n, v, id);
      InSetOf(actual, id);
      InSetOf(visible, id);
    }
    SubsetSize(SetOf(visible) * wanted, SetOf(actual) * wanted);
    VisiblePlusHidden(actual, n, v);
    RatioBounds(Assess(actualIds, scoreCount, expected, k, v).overlap, DenomFor(k, expected));
  }

  lemma RatioBounds(a: nat, b: nat)
    requires a <= b
    ensures b > 0 ==> 0.0 <= a as real / b as real <= 1.0
    ensures b > 0 ==> (a as real / b as real == 1.0 <==> a == b)
  {
    if b > 0 {
      var q := a as real / b as real;
      assert q * b as real == a as real;
      assert q > 1.0 ==> q * b as real > b as real;
      assert q < 0.0 ==> q * b as real < 0.0;
    }
  }

  /** Recall 1 means that every id of the exact answer was returned, and that the exact
      answer names no id twice: when id ranges of initial and inserted vectors overlap, a
      repeated id makes recall 1 unreachable. */
  lemma FullRecallIff(actualIds: seq<int>, scoreCount: nat, expected: seq<Entry>, k: nat, v: View)
    requires 0 < |expected| <= k
    ensures Assess(actualIds, scoreCount, expected, k, v).recall == 1.0 <==>
              NoRepeats(Ids(expected)) && forall id :: id in Ids(expected) ==> id in Take(actualIds, k)
  {
    var actual := Take(actualIds, k);
    var wanted := SetOf(Ids(expected));
    SubsetSize(SetOf(actual) * wanted, wanted);
    SetOfSize(Ids(expected));
    SetOfDistinct(Ids(expected));
    RatioBounds(|SetOf(actual) * wanted|, |expected|);
    forall id
      ensures id in wanted <==> id in Ids(expected)
      ensures id in SetOf(actual) <==> id in actual
    {
      InSetOf(actual, id);
      InSetOf(Ids(expected), id);
    }
    if forall id :: id in Ids(expected) ==> id in actual {
      assert SetOf(actual) * wanted == wanted;
    }
  }

  // ------------------------------------------------------ one query, end to end

  /** Was the vector with this id there at the cutoff? */
  ghost predicate WasVisible(c: Corpus, events: seq<InsertEvent>, id: int, cutoff: int)
  {
    || (c.initOffset <= id < c.initOffset + |c.initScores|)
    || RowWasIn(events, cutoff, id - c.insertOffset)
  }

  ghost function SharedIds(returned: seq<int>, list: seq<Entry>): set<int>
  {
    set id | id in returned && exists e :: e in list && e.id == id
  }

  /** `r` is the proportion of `part` in `whole`. */
  ghost predicate Ratio(r: real, part: nat, whole: nat)
  {
    0.0 <= r <= 1.0 && r * whole as real == part as real
  }

  /** The ids of `part` are those of `whole` that were visible, in the same order. */
  ghost predicate VisiblePart(
      part: seq<int>, whole: seq<int>, c: Corpus, events: seq<InsertEvent>, cutoff: int, kept: seq<nat>)
  {
    && TakesPlaces(part, whole, kept)
    && (forall p: nat :: p < |whole| ==> (p in kept <==> WasVisible(c, events, whole[p], cutoff)))
  }

  /** What the report of one query under one lag means, told from the log alone. `list` is the
      exact answer, its naturals if ids are negative; recall is the part of its ids that was
      returned, of k where the answer is empty, and 1 for k = 0; precision is their part among
      the visible returned ids; too new are the other returned ids, missing the other wanted. */
  ghost predicate Tells(
      r: Report, list: seq<Entry>, c: Corpus, events: seq<InsertEvent>, actualIds: seq<int>, cutoff: int, k: nat)
  {
    var actual := if |actualIds| <= k then actualIds else actualIds[..k];
    && AnswerFor(c, events, list, cutoff, k) && NaturalsOfRight(c, events, list, cutoff, k)
    && r.overlap == r.visibleOverlap == |SharedIds(actual, list)|
    && (if list != [] then |list| <= k && Ratio(r.recall, r.overlap, |list|)
        else if k > 0 then r.recall == 0.0 else r.recall == 1.0)
    && (exists kept :: VisiblePart(r.visibleIds, actual, c, events, cutoff, kept))
    && (if r.visibleIds != [] then r.precision.Some? && Ratio(r.precision.value, r.visibleOverlap, |r.visibleIds|)
        else r.precision.None?)
    && r.tooNew == |actual| - |r.visibleIds|
    && r.missing == |list| - r.visibleOverlap
  }

  lemma Divided(a: nat, b: nat)
    requires 0 < b && a <= b
    ensures Ratio(a as real / b as real, a, b)
  {
    RatioBounds(a, b);
  }

  ghost predicate ReportFor(
      r: Report, c: Corpus, events: seq<InsertEvent>, actualIds: seq<int>, cutoff: int, k: nat)
  {
    exists list :: Tells(r, list, c, events, actualIds, cutoff, k)
  }

  /** `process_query_event` for one query row, over a log and a matrix. */
  method ReportLags(
      events: seq<InsertEvent>, c: Corpus, k: nat, chunk: nat, issuedAt: int, lags: seq<int>,
      actualIds: seq<int>, scoreCount: nat)
    returns (ok: bool, reports: map<int, Report>)
    requires chunk > 0 && WellFormed(events) && ByCompletion(events)
    ensures ok <==> forall e :: e in events && e.ok ==> Fits(e, |c.insertScores|)
    ensures ok ==> reports.Keys == set lag | lag in lags
    ensures ok && DisjointBlocks(OkEvents(events)) && (scoreCount >= k || scoreCount >= |actualIds|) ==>
              forall lag :: lag in reports ==> ReportFor(reports[lag], c, events, actualIds, issuedAt - lag, k)
  {
    hide AnswerFor, ExactFor, CountsVisible, InverseOf, DisjointBlocks, Assess, ReportFor, Fits, Take;
    reports := map[];
    var exact, counts, order;
    ok, exact, counts, order := RecallAnswers(events, c, k, chunk, issuedAt, lags);
    if !ok {
      return;
    }
    reports := map lag | lag in exact ::
      Assess(actualIds, scoreCount, exact[lag], k,
             View(c.initOffset, |c.initScores|, c.insertOffset, counts[lag], order));
    if DisjointBlocks(OkEvents(events)) && (scoreCount >= k || scoreCount >= |actualIds|) {
      TakeLength(actualIds, k);
      forall lag | lag in reports
        ensures ReportFor(reports[lag], c, events, actualIds, issuedAt - lag, k)
      {
        LagReport(events, c, k, issuedAt - lag, exact[lag], counts[lag], order, actualIds, scoreCount);
      }
    }
  }

  lemma LagReport(
      events: seq<InsertEvent>, c: Corpus, k: nat, cutoff: int, list: seq<Entry>, count: nat, order: seq<int>,
      actualIds: seq<int>, scoreCount: nat)
    requires DisjointBlocks(OkEvents(events)) && scoreCount >= |Take(actualIds, k)|
    requires forall e :: e in events && e.ok ==> Fits(e, |c.insertScores|)
    requires AnswerFor(c, events, list, cutoff, k) && CountsVisible(events, count, cutoff)
    requires InverseOf(order, Rows(OkEvents(events))) && |order| == |c.insertScores|
    ensures
      var v := View(c.initOffset, |c.initScores|, c.insertOffset, count, order);
      ReportFor(Assess(actualIds, scoreCount, list, k, v), c, events, actualIds, cutoff, k)
  {
    var v := View(c.initOffset, |c.initScores|, c.insertOffset, count, order);
    FittingRows(events, |c.insertScores|);
    hide Fits, InverseOf, CountsVisible, AnswerFor, WasVisible, View.Shows;
    ViewShows(events, c, cutoff, count, order);
    ViewShowsAnswer(events, c, k, cutoff, list, count, order);
    hide DisjointBlocks, NoRepeats;
    hide ReportFor, IsTopK, Corpus.Covers;
    AnswerMeans(c, events, list, cutoff, k);
    ShownReport(events, c, k, cutoff, list, v, actualIds, scoreCount);
  }

  lemma ShownReport(
      events: seq<InsertEvent>, c: Corpus, k: nat, cutoff: int, list: seq<Entry>, v: View, actualIds: seq<int>,
      scoreCount: nat)
    requires |list| <= k && scoreCount >= |Take(actualIds, k)|
    requires forall id :: id in Ids(list) ==> v.Shows(id)
    requires forall id :: v.Shows(id) <==> WasVisible(c, events, id, cutoff)
    requires AnswerFor(c, events, list, cutoff, k) && NaturalsOfRight(c, events, list, cutoff, k)
    ensures ReportFor(Assess(actualIds, scoreCount, list, k, v), c, events, actualIds, cutoff, k)
  {
    hide AnswerFor, NaturalsOfRight, WasVisible, View.Shows;
    AssessedReport(actualIds, scoreCount, list, k, v);
    var r, actual := Assess(actualIds, scoreCount, list, k, v), Take(actualIds, k);
    var kept := VisiblePlaces(actual, |actual|, v);
    assert actual[..|actual|] == actual;
    hide Assess, TakesPlaces, SharedIds, Ratio, VisibleAmong;
    assert VisiblePart(r.visibleIds, actual, c, events, cutoff, kept);
    hide VisiblePart;
    assert Tells(r, list, c, events, actualIds, cutoff, k);
  }

  lemma WasInIsListed(events: seq<InsertEvent>, cutoff: int, row: int)
    ensures RowWasIn(events, cutoff, row) <==> row >= 0 && row in VisibleRows(events, cutoff)
  {
    if row >= 0 {
      VisibleRowWasIn(events, cutoff, row);
    }
  }

  /** The inverse order tells what was visible. */
  lemma ViewShows(events: seq<InsertEvent>, c: Corpus, cutoff: int, count: nat, order: seq<int>)
    requires DisjointBlocks(OkEvents(events)) && CountsVisible(events, count, cutoff)
    requires InverseOf(order, Rows(OkEvents(events))) && |order| == |c.insertScores|
    requires forall r :: r in Rows(OkEvents(events)) ==> r < |c.insertScores|
    ensures
      var v := View(c.initOffset, |c.initScores|, c.insertOffset, count, order);
      forall id :: v.Shows(id) <==> WasVisible(c, events, id, cutoff)
  {
    var v := View(c.initOffset, |c.initScores|, c.insertOffset, count, order);
    var rows := Rows(OkEvents(events));
    DistinctIffDisjoint(OkEvents(events));
    hide InverseOf, IsIdVisible, NoRepeats, DisjointBlocks, RowWasIn;
    forall id
      ensures v.Shows(id) <==> WasVisible(c, events, id, cutoff)
    {
      VisibleIdsExact(id, v.initOffset, v.initCount, v.insertOffset, v.order, rows, count);
      WasInIsListed(events, cutoff, id - c.insertOffset);
    }
  }

  lemma ViewShowsAnswer(
      events: seq<InsertEvent>, c: Corpus, k: nat, cutoff: int, list: seq<Entry>, count: nat, order: seq<int>)
    requires DisjointBlocks(OkEvents(events)) && CountsVisible(events, count, cutoff)
    requires InverseOf(order, Rows(OkEvents(events))) && |order| == |c.insertScores|
    requires forall r :: r in Rows(OkEvents(events)) ==> r < |c.insertScores|
    requires AnswerFor(c, events, list, cutoff, k)
    ensures
      var v := View(c.initOffset, |c.initScores|, c.insertOffset, count, order);
      |list| <= k && forall id :: id in Ids(list) ==> v.Shows(id)
  {
    DistinctIffDisjoint(OkEvents(events));
    hide InverseOf, NoRepeats, DisjointBlocks, View.Shows, Corpus.ReadsBack;
    ReadBackMembers(c, list, VisibleRows(events, cutoff), k);
    ExpectedAreVisible(c, Rows(OkEvents(events)), count, list, k,
                       View(c.initOffset, |c.initScores|, c.insertOffset, count, order));
  }

  lemma SharedIsProduct(returned: seq<int>, list: seq<Entry>)
    ensures SetOf(returned) * SetOf(Ids(list)) == SharedIds(returned, list)
    ensures |SharedIds(returned, list)| <= |list|
  {
    forall id
      ensures id in SetOf(returned) * SetOf(Ids(list)) <==> id in SharedIds(returned, list)
    {
      InSetOf(returned, id);
      InSetOf(Ids(list), id);
      if e :| e in list && e.id == id {
        var i :| 0 <= i < |list| && list[i] == e;
        assert Ids(list)[i] == id;
      }
      if id in Ids(list) {
        var i :| 0 <= i < |list| && Ids(list)[i] == id;
        assert list[i] in list;
      }
    }
    SubsetSize(SetOf(returned) * SetOf(Ids(list)), SetOf(Ids(list)));
    SetOfSize(Ids(list));
  }

  lemma {:induction false} VisiblePlaces(ids: seq<int>, n: nat, v: View) returns (kept: seq<nat>)
    requires n <= |ids|
    ensures TakesPlaces(VisibleAmong(ids, n, v), ids[..n], kept)
    ensures forall p: nat :: p < n ==> (p in kept <==> v.Shows(ids[p]))
  {
    if n == 0 {
      kept := [];
    } else {
      kept := VisiblePlaces(ids, n - 1, v);
      assert ids[..n] == ids[..n - 1] + [ids[n - 1]];
      TakesLast(VisibleAmong(ids, n - 1, v), ids[..n - 1], kept, ids[n - 1]);
      hide TakesPlaces;
      if v.Shows(ids[n - 1]) {
        kept := kept + [n - 1];
      }
    }
  }

  /** Hits among visible ids are at most as many as those. */
  lemma VisibleShare(visible: seq<int>, list: seq<Entry>)
    ensures
      var hits := |SetOf(visible) * SetOf(Ids(list))|;
      visible != [] ==> Ratio(hits as real / |visible| as real, hits, |visible|)
  {
    SubsetSize(SetOf(visible) * SetOf(Ids(list)), SetOf(visible));
    SetOfSize(visible);
    if visible != [] {
      Divided(|SetOf(visible) * SetOf(Ids(list))|, |visible|);
    }
  }

  /** The numbers, where every returned id has a score and the answer is no longer than k. */
  lemma AssessedNumbers(actualIds: seq<int>, scoreCount: nat, list: seq<Entry>, k: nat, v: View)
    requires |list| <= k && scoreCount >= |Take(actualIds, k)|
    ensures
      var r := Assess(actualIds, scoreCount, list, k, v);
      var actual := Take(actualIds, k);
      var visible := VisibleAmong(actual, |actual|, v);
      && r.visibleIds == visible && r.tooNew == |actual| - |visible|
      && r.overlap == |SetOf(actual) * SetOf(Ids(list))|
      && r.visibleOverlap == |SetOf(visible) * SetOf(Ids(list))|
      && (list != [] ==> r.recall == r.overlap as real / |list| as real)
      && (list == [] ==> r.recall == if k > 0 then r.overlap as real / k as real else 1.0)
      && (visible == [] ==> r.precision.None?)
      && (visible != [] ==> r.precision == Some(r.visibleOverlap as real / |visible| as real))
      && (r.visibleOverlap <= |list| ==> r.missing == |list| - r.visibleOverlap)
  {
    assert Take(list, k) == list;
    hide SetOf, Ids, VisibleAmong, View.Shows;
  }

  /** The same, told by the visibility test. */
  lemma AssessedReport(actualIds: seq<int>, scoreCount: nat, list: seq<Entry>, k: nat, v: View)
    requires |list| <= k && scoreCount >= |Take(actualIds, k)|
    requires forall id :: id in Ids(list) ==> v.Shows(id)
    ensures
      var r := Assess(actualIds, scoreCount, list, k, v);
      var actual := Take(actualIds, k);
      && r.overlap == r.visibleOverlap == |SharedIds(actual, list)|
      && (if list != [] then Ratio(r.recall, r.overlap, |list|)
          else if k > 0 then r.recall == 0.0 else r.recall == 1.0)
      && r.visibleIds == VisibleAmong(actual, |actual|, v)
      && (if r.visibleIds != [] then r.precision.Some? && Ratio(r.precision.value, r.visibleOverlap, |r.visibleIds|)
          else r.precision.None?)
      && r.tooNew == |actual| - |r.visibleIds|
      && r.missing == |list| - r.visibleOverlap
  {
    var actual := Take(actualIds, k);
    var visible := VisibleAmong(actual, |actual|, v);
    AssessedNumbers(actualIds, scoreCount, list, k, v);
    OverlapIsVisibleOverlap(actualIds, scoreCount, list, k, v);
    hide Assess, Ratio, SharedIds, SetOf, Ids, VisibleAmong, Take, View.Shows;
    SharedIsProduct(actual, list);
    VisibleShare(visible, list);
    if list != [] {
      Divided(|SharedIds(actual, list)|, |list|);
    }
  }

  datatype QueryReport = NoReports | Reports(byLag: map<int, Report>)

  /** From the log to the report, as `main` does it for one successful query: limit, cut,
      index, running top-k, comparison with what was returned. Over a log with disjoint insert
      blocks, and unless the user asked for fewer rows than the queries can have seen, it
      succeeds, and for every lag: the ids reported visible are those returned that were there
      by issue time minus lag, the overlap with the exact answer of the whole log loses nothing
      by counting only them, recall is a proportion, and too-new and visible ids are together
      what was returned. */
  method ReportQuery(
      events: seq<InsertEvent>, qs: seq<QueryEvent>, q: QueryEvent, lags: seq<int>, userCap: Option<nat>,
      c: Corpus, k: nat, chunk: nat, actualIds: seq<int>, scoreCount: nat)
    returns (a: QueryReport, limit: nat)
    requires chunk > 0 && WellFormed(events) && ByCompletion(events)
    requires q in qs && q.ok
    ensures IsRowLimit(events, LastOkIssue(qs).value - MinLag(lags), limit)
    ensures a.Reports? ==> a.byLag.Keys == set lag | lag in lags
    ensures userCap.None? || userCap.value >= limit ==>
              && (a.Reports? <==> limit <= |c.insertScores| && CutsNoBlock(events, limit))
              && (DisjointInserts(events) && limit <= |c.insertScores| ==> a.Reports?)
              && (DisjointInserts(events) && (scoreCount >= k || scoreCount >= |actualIds|) && a.Reports? ==>
                    forall lag :: lag in a.byLag ==>
                      ReportFor(a.byLag[lag], c, events, actualIds, q.issuedAt - lag, k))
    ensures userCap.Some? && userCap.value < limit ==>
              var cap := userCap.value;
              && (a.Reports? <==> cap <= |c.insertScores| && CutsNoBlock(events, cap))
              && (DisjointInserts(events) && (scoreCount >= k || scoreCount >= |actualIds|) && a.Reports? ==>
                    forall lag :: lag in a.byLag ==>
                      && ReportFor(a.byLag[lag], CutCorpus(c, cap), Truncate(events, cap), actualIds,
                                   q.issuedAt - lag, k)
                      && (StartsBelow(events, cap, q.issuedAt - lag) ==>
                            ReportFor(a.byLag[lag], c, events, actualIds, q.issuedAt - lag, k)))
  {
    hide ReportFor, StartsBelow, DisjointBlocks, Take, DisjointInserts, Truncate, OkEvents, IsRowLimit;
    limit := RecallInsertRowLimit(events, qs, lags);
    var cap := if userCap.None? then limit else Min(userCap.value, limit);
    if DisjointInserts(events) {
      LimitCutsNoBlock(events, LastOkIssue(qs).value - MinLag(lags), limit);
    }
    if cap > |c.insertScores| {
      return NoReports, limit;
    }
    InBoundsIff(events, cap);
    var cut := Truncate(events, cap);
    TruncateMembers(events, cap);
    TruncateSorted(events, cap);
    var ok, reports := ReportLags(cut, CutCorpus(c, cap), k, chunk, q.issuedAt, lags, actualIds, scoreCount);
    if !ok {
      return NoReports, limit;
    }
    a := Reports(reports);
    if cap == limit {
      forall lag | lag in reports
        ensures StartsBelow(events, cap, q.issuedAt - lag)
      {
        LimitCoversLag(events, qs, q, lags, lag, limit);
      }
    }
    if DisjointInserts(events) && (scoreCount >= k || scoreCount >= |actualIds|) {
      CutStaysDisjoint(events, cap);
      forall lag | lag in reports && StartsBelow(events, cap, q.issuedAt - lag)
        ensures ReportFor(reports[lag], c, events, actualIds, q.issuedAt - lag, k)
      {
        ReportOnCut(reports[lag], c, events, cap, actualIds, q.issuedAt - lag, k);
      }
    }
  }

  lemma ReportOnCut(
      r: Report, c: Corpus, events: seq<InsertEvent>, cap: nat, actualIds: seq<int>, cutoff: int, k: nat)
    requires cap <= |c.insertScores| && StartsBelow(events, cap, cutoff)
    requires ReportFor(r, CutCorpus(c, cap), Truncate(events, cap), actualIds, cutoff, k)
    ensures ReportFor(r, c, events, actualIds, cutoff, k)
  {
    var list :| Tells(r, list, CutCorpus(c, cap), Truncate(events, cap), actualIds, cutoff, k);
    forall id
      ensures WasVisible(CutCorpus(c, cap), Truncate(events, cap), id, cutoff) <==> WasVisible(c, events, id, cutoff)
    {
      SameVisible(c, events, cap, id, cutoff);
    }
    hide AnswerFor, WasVisible, StartsBelow, NaturalsOfRight;
    CutAnswerIsFullAnswer(events, c, cap, list, cutoff, k);
    AnswerMeans(c, events, list, cutoff, k);
    SameTale(r, list, CutCorpus(c, cap), Truncate(events, cap), c, events, actualIds, cutoff, k);
  }

  lemma SameTale(
      r: Report, list: seq<Entry>, c: Corpus, events: seq<InsertEvent>, d: Corpus, all: seq<InsertEvent>,
      actualIds: seq<int>, cutoff: int, k: nat)
    requires Tells(r, list, c, events, actualIds, cutoff, k)
    requires AnswerFor(d, all, list, cutoff, k) && NaturalsOfRight(d, all, list, cutoff, k)
    requires forall id :: WasVisible(c, events, id, cutoff) <==> WasVisible(d, all, id, cutoff)
    ensures Tells(r, list, d, all, actualIds, cutoff, k)
  {
    hide AnswerFor, WasVisible, NaturalsOfRight, TakesPlaces, Ratio, SharedIds;
    var actual := if |actualIds| <= k then actualIds else actualIds[..k];
    var kept :| VisiblePart(r.visibleIds, actual, c, events, cutoff, kept);
    assert VisiblePart(r.visibleIds, actual, d, all, cutoff, kept);
  }

  lemma SameVisible(c: Corpus, events: seq<InsertEvent>, cap: nat, id: int, cutoff: int)
    requires cap <= |c.insertScores| && StartsBelow(events, cap, cutoff)
    ensures WasVisible(CutCorpus(c, cap), Truncate(events, cap), id, cutoff) <==> WasVisible(c, events, id, cutoff)
  {
    TruncationKeepsVisible(events, cap, cutoff);
    WasInIsListed(events, cutoff, id - c.insertOffset);
    WasInIsListed(Truncate(events, cap), cutoff, id - c.insertOffset);
  }

  /** Cutting the log keeps the insert blocks disjoint. */
  lemma {:induction false} CutStaysDisjoint(events: seq<InsertEvent>, cap: nat)
    requires DisjointInserts(events)
    ensures DisjointBlocks(OkEvents(Truncate(events, cap)))
  {
    if events != [] {
      var init, e := events[..|events| - 1], events[|events| - 1];
      CutStaysDisjoint(init, cap);
      if e.ok && e.startRow < cap {
        var before := Truncate(init, cap);
        assert (before + [e])[..|before|] == before;
        TruncateMembers(init, cap);
        OkEventsFrom(before);
        forall f | f in OkEvents(before)
          ensures Disjoint(f, e)
        {
          assert f in init;
          var i :| 0 <= i < |init| && init[i] == f;
          assert events[i] == f;
        }
        DisjointNext(OkEvents(before), e);
      } else if !e.ok {
        var before := Truncate(init, cap);
        assert (before + [e])[..|before|] == before;
      }
    }
  }

  lemma DisjointNext(es: seq<InsertEvent>, e: InsertEvent)
    requires DisjointBlocks(es) && forall f :: f in es ==> Disjoint(f, e)
    ensures DisjointBlocks(es + [e])
  {
  }
}
