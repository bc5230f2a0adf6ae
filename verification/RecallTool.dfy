/** The offline recall tool: it orders the result files, pairs their rows with the ground
    truth, and accumulates recall at k. Recalls are exact rationals. */
module RecallTool {
  import opened Basics
  import opened RowPartition
  import opened ResultFiles

  type Row = seq<int>

  /** A loaded matrix has at least one row and one column. */
  ghost predicate IsMatrix(rows: seq<Row>)
  {
    |rows| > 0 && |rows[0]| > 0 && forall i :: 0 <= i < |rows| ==> |rows[i]| == |rows[0]|
  }

  datatype Summary = Summary(
    matches: nat, mean: real, lowest: real, highest: real, variance: real, perfect: nat)

  datatype Outcome =
    | Computed(summary: Summary)
    | NoMatrices
    | RowCountMismatch
    | TooFewColumns
    | NegativeTruth(row: nat)
    | DuplicateTruth(row: nat)

  // ------------------------------------------------------------ one query

  function Ids(row: Row): set<int>
  {
    set id | id in row
  }

  function Known(row: Row): set<int>
  {
    set id | id in row && id >= 0
  }

  function Hits(expected: Row, actual: Row, k: nat): nat
    requires k <= |expected| && k <= |actual|
  {
    |Ids(expected[..k]) * Known(actual[..k])|
  }

  lemma {:induction false} FewIds(row: Row)
    ensures |Ids(row)| <= |row|
  {
    if row != [] {
      var n := |row| - 1;
      FewIds(row[..n]);
      assert Ids(row) == Ids(row[..n]) + {row[n]};
    }
  }

  lemma IntersectionSize(a: set<int>, b: set<int>)
    ensures |a * b| <= |a|
  {
    assert a == (a * b) + (a - b);
    assert |a| == |a * b| + |a - b|;
  }

  lemma HitsBound(expected: Row, actual: Row, k: nat)
    requires k <= |expected| && k <= |actual|
    ensures Hits(expected, actual, k) <= k
  {
    FewIds(expected[..k]);
    IntersectionSize(Ids(expected[..k]), Known(actual[..k]));
  }

  predicate HasNegative(row: Row, k: nat)
    requires k <= |row|
  {
    exists i :: 0 <= i < k && row[i] < 0
  }

  predicate HasDuplicate(row: Row, k: nat)
    requires k <= |row|
  {
    |Ids(row[..k])| != k
  }

  lemma {:induction false} DistinctSize(row: Row)
    ensures |Ids(row)| == |row| <==> forall i, j :: 0 <= i < j < |row| ==> row[i] != row[j]
  {
    if row != [] {
      var n := |row| - 1;
      var front := row[..n];
      DistinctSize(front);
      FewIds(front);
      assert Ids(row) == Ids(front) + {row[n]};
      assert row[n] in front <==> exists i :: 0 <= i < n && row[i] == row[n];
    }
  }

  // --------------------------------------------------------------- sequences

  function Total(xs: seq<real>): real
  {
    if xs == [] then 0.0 else Total(xs[..|xs| - 1]) + xs[|xs| - 1]
  }

  function Sq(x: real): real
  {
    x * x
  }

  function Ratio(hits: nat, k: nat): real
    requires k > 0
  {
    hits as real / k as real
  }

  function Squares(xs: seq<real>): real
  {
    if xs == [] then 0.0 else Squares(xs[..|xs| - 1]) + Sq(xs[|xs| - 1])
  }

  function Deviations(xs: seq<real>, m: real): real
  {
    if xs == [] then 0.0 else Deviations(xs[..|xs| - 1], m) + Sq(xs[|xs| - 1] - m)
  }

  /** `x` taken `n` times. */
  function Scale(x: real, n: nat): real
  {
    x * n as real
  }

  lemma NextScale(x: real, n: nat)
    ensures Scale(x, n + 1) == Scale(x, n) + x && Scale(x, 0) == 0.0 && Scale(1.0, n) == n as real
  {
    assert (n + 1) as real == n as real + 1.0;
  }

  lemma {:induction false} TotalBetween(xs: seq<real>, lo: real, hi: real)
    requires forall i :: 0 <= i < |xs| ==> lo <= xs[i] <= hi
    ensures Scale(lo, |xs|) <= Total(xs) <= Scale(hi, |xs|)
  {
    hide Scale;
    var n := |xs| - 1;
    if xs != [] {
      TotalBetween(xs[..n], lo, hi);
      NextScale(lo, n);
      NextScale(hi, n);
    } else {
      NextScale(lo, 0);
      NextScale(hi, 0);
    }
  }

  /** Squares, total and count to the sum of squared deviations from `m`. */
  function Expand(squares: real, total: real, n: real, m: real): real
  {
    squares - 2.0 * m * total + n * Sq(m)
  }

  lemma NextDeviation(q: real, t: real, n: real, x: real, m: real)
    ensures Expand(q, t, n, m) + Sq(x - m) == Expand(q + Sq(x), t + x, n + 1.0, m)
    ensures Sq(x - m) >= 0.0
  {
    SqNonNegative(x - m);
    assert Sq(x - m) == Sq(x) - 2.0 * m * x + Sq(m);
    assert (n + 1.0) * Sq(m) == n * Sq(m) + Sq(m);
    assert 2.0 * m * (t + x) == 2.0 * m * t + 2.0 * m * x;
  }

  lemma SqNonNegative(x: real)
    ensures Sq(x) >= 0.0
  {
    if x < 0.0 {
      assert (-x) * (-x) == x * x;
    }
  }

  lemma {:induction false} DeviationsExpand(xs: seq<real>, m: real)
    ensures Deviations(xs, m) == Expand(Squares(xs), Total(xs), |xs| as real, m)
    ensures Deviations(xs, m) >= 0.0
  {
    if xs == [] {
      assert Expand(0.0, 0.0, 0.0, m) == 0.0;
    } else {
      hide Expand, Sq;
      var n := |xs| - 1;
      DeviationsExpand(xs[..n], m);
      assert |xs| as real == n as real + 1.0;
      NextDeviation(Squares(xs[..n]), Total(xs[..n]), n as real, xs[n], m);
    }
  }

  lemma AtTheMean(q: real, n: nat, m: real)
    requires n > 0
    ensures Expand(q, Scale(m, n), n as real, m) == Scale(q / n as real - Sq(m), n)
  {
    var d := n as real;
    assert 2.0 * m * (m * d) == 2.0 * (d * (m * m));
    assert q / d * d == q;
  }

  lemma NonNegativeFactor(v: real, n: nat)
    requires n > 0 && Scale(v, n) >= 0.0
    ensures v >= 0.0
  {
  }

  /** The variance computed from the two running sums needs no clamping at zero. */
  lemma VarianceIsNonNegative(xs: seq<real>, m: real)
    requires xs != [] && Scale(m, |xs|) == Total(xs)
    ensures Squares(xs) / |xs| as real - Sq(m) >= 0.0
  {
    hide Expand, Sq, Scale;
    DeviationsExpand(xs, m);
    AtTheMean(Squares(xs), |xs|, m);
    NonNegativeFactor(Squares(xs) / |xs| as real - Sq(m), |xs|);
  }

  /** A total of proportions is their number exactly when each of them is one. */
  lemma {:induction false} TotalIsFull(xs: seq<real>)
    requires forall i :: 0 <= i < |xs| ==> xs[i] <= 1.0
    ensures Total(xs) <= |xs| as real
    ensures Total(xs) == |xs| as real <==> forall i :: 0 <= i < |xs| ==> xs[i] == 1.0
  {
    if xs != [] {
      var n := |xs| - 1;
      TotalIsFull(xs[..n]);
      assert |xs| as real == n as real + 1.0;
      if Total(xs) == |xs| as real {
        forall i | 0 <= i < |xs|
          ensures xs[i] == 1.0
        {
          assert i < n ==> xs[..n][i] == 1.0;
        }
      }
    }
  }

  // ----------------------------------------------------------- specification

  function HitCounts(truth: seq<Row>, answers: seq<Row>, k: nat, n: nat): seq<nat>
    requires n <= |truth| && n <= |answers| && Wide(truth, k) && Wide(answers, k)
  {
    seq(n, i requires 0 <= i < n => Hits(truth[i], answers[i], k))
  }

  function Recalls(truth: seq<Row>, answers: seq<Row>, k: nat, n: nat): seq<real>
    requires k > 0 && n <= |truth| && n <= |answers| && Wide(truth, k) && Wide(answers, k)
  {
    seq(n, i requires 0 <= i < n => Ratio(Hits(truth[i], answers[i], k), k))
  }

  predicate Wide(rows: seq<Row>, k: nat)
  {
    forall i :: 0 <= i < |rows| ==> k <= |rows[i]|
  }

  predicate GoodTruth(row: Row, k: nat)
    requires k <= |row|
  {
    !HasNegative(row, k) && !HasDuplicate(row, k)
  }

  lemma NextRecall(truth: seq<Row>, answers: seq<Row>, k: nat, n: nat)
    requires k > 0 && n < |truth| && n < |answers| && Wide(truth, k) && Wide(answers, k)
    ensures Recalls(truth, answers, k, n + 1) ==
        Recalls(truth, answers, k, n) + [Ratio(Hits(truth[n], answers[n], k), k)]
    ensures HitCounts(truth, answers, k, n + 1) == HitCounts(truth, answers, k, n) + [Hits(truth[n], answers[n], k)]
    ensures 0.0 <= Ratio(Hits(truth[n], answers[n], k), k) <= 1.0
    ensures Ratio(Hits(truth[n], answers[n], k), k) == 1.0 <==> Hits(truth[n], answers[n], k) == k
  {
    hide Hits;
    HitsBound(truth[n], answers[n], k);
    ProportionFacts(Hits(truth[n], answers[n], k), k);
  }

  lemma ProportionFacts(h: nat, k: nat)
    requires 0 < k && h <= k
    ensures 0.0 <= Ratio(h, k) <= 1.0
    ensures Ratio(h, k) == 1.0 <==> h == k
  {
    var r, d := Ratio(h, k), k as real;
    assert r * d == h as real;
    assert r == 1.0 ==> h as real == d;
  }

  function Perfect(truth: seq<Row>, answers: seq<Row>, k: nat, n: nat): set<nat>
    requires n <= |truth| && n <= |answers| && Wide(truth, k) && Wide(answers, k)
  {
    set i: nat | i < n && Hits(truth[i], answers[i], k) == k
  }

  /** What a computed summary says, query by query. */
  ghost predicate Describes(s: Summary, truth: seq<Row>, answers: seq<Row>, k: nat)
    requires k > 0 && 0 < |truth| == |answers| && Wide(truth, k) && Wide(answers, k)
  {
    var xs := Recalls(truth, answers, k, |truth|);
    && s.matches == Sum(HitCounts(truth, answers, k, |truth|))
    && Scale(s.mean, |truth|) == Total(xs)
    && s.lowest in xs && s.highest in xs
    && (forall x :: x in xs ==> 0.0 <= s.lowest <= x <= s.highest <= 1.0)
    && s.variance == Squares(xs) / |truth| as real - Sq(s.mean)
    && s.perfect == |Perfect(truth, answers, k, |truth|)|
  }

  /** What any described summary satisfies. */
  lemma SummaryIsCoherent(s: Summary, truth: seq<Row>, answers: seq<Row>, k: nat)
    requires k > 0 && 0 < |truth| == |answers| && Wide(truth, k) && Wide(answers, k)
    requires Describes(s, truth, answers, k)
    ensures 0.0 <= s.lowest <= s.mean <= s.highest <= 1.0
    ensures s.variance >= 0.0
    ensures Scale(Scale(s.mean, |truth|), k) == s.matches as real
    ensures s.mean == 1.0 <==> forall i :: 0 <= i < |truth| ==> Hits(truth[i], answers[i], k) == k
    ensures s.mean == 1.0 <==> s.perfect == |truth|
  {
    hide Hits, HitCounts, Perfect, Recalls, Sq, Expand, Total, Squares, Sum, Scale;
    var n := |truth|;
    var xs := Recalls(truth, answers, k, n);
    RecallsAt(truth, answers, k, n);
    MeanFacts(xs, s.mean, s.lowest, s.highest);
    VarianceIsNonNegative(xs, s.mean);
    MatchesAreTotal(truth, answers, k, n);
    PerfectIsAll(truth, answers, k, n);
    hide Describes, Wide;
  }

  lemma MeanFacts(xs: seq<real>, mean: real, lo: real, hi: real)
    requires xs != [] && Scale(mean, |xs|) == Total(xs)
    requires forall x :: x in xs ==> 0.0 <= lo <= x <= hi <= 1.0
    ensures lo <= mean <= hi
    ensures mean == 1.0 <==> forall i :: 0 <= i < |xs| ==> xs[i] == 1.0
  {
    hide Total, Scale;
    forall i | 0 <= i < |xs|
      ensures lo <= xs[i] <= hi && xs[i] <= 1.0
    {
      assert xs[i] in xs;
    }
    TotalIsFull(xs);
    TotalBetween(xs, lo, hi);
    MeanBetween(mean, |xs|, lo, hi);
    FullMean(mean, |xs|);
  }

  lemma RecallsAt(truth: seq<Row>, answers: seq<Row>, k: nat, n: nat)
    requires k > 0 && n <= |truth| && n <= |answers| && Wide(truth, k) && Wide(answers, k)
    ensures |Recalls(truth, answers, k, n)| == n
    ensures forall i :: 0 <= i < n ==>
      && 0.0 <= Recalls(truth, answers, k, n)[i] <= 1.0
      && (Recalls(truth, answers, k, n)[i] == 1.0 <==> Hits(truth[i], answers[i], k) == k)
  {
    hide Hits;
    forall i: nat | i < n
      ensures 0.0 <= Recalls(truth, answers, k, n)[i] <= 1.0
      ensures Recalls(truth, answers, k, n)[i] == 1.0 <==> Hits(truth[i], answers[i], k) == k
    {
      HitsBound(truth[i], answers[i], k);
      ProportionFacts(Hits(truth[i], answers[i], k), k);
    }
  }

  lemma {:induction false} ScaleGrows(a: real, b: real, n: nat)
    requires n > 0 && a < b
    ensures Scale(a, n) < Scale(b, n)
  {
    hide Scale;
    NextScale(a, n - 1);
    NextScale(b, n - 1);
    if n > 1 {
      ScaleGrows(a, b, n - 1);
    } else {
      NextScale(a, 0);
      NextScale(b, 0);
    }
  }

  lemma MeanBetween(m: real, n: nat, lo: real, hi: real)
    requires n > 0 && Scale(lo, n) <= Scale(m, n) <= Scale(hi, n)
    ensures lo <= m <= hi
  {
    hide Scale;
    if m < lo {
      ScaleGrows(m, lo, n);
    } else if hi < m {
      ScaleGrows(hi, m, n);
    }
  }

  lemma FullMean(m: real, n: nat)
    requires n > 0
    ensures Scale(m, n) == n as real <==> m == 1.0
  {
    hide Scale;
    NextScale(1.0, n);
    if m < 1.0 {
      ScaleGrows(m, 1.0, n);
    } else if 1.0 < m {
      ScaleGrows(1.0, m, n);
    }
  }

  lemma {:induction false} MatchesAreTotal(truth: seq<Row>, answers: seq<Row>, k: nat, n: nat)
    requires k > 0 && n <= |truth| && n <= |answers| && Wide(truth, k) && Wide(answers, k)
    ensures Scale(Total(Recalls(truth, answers, k, n)), k) == Sum(HitCounts(truth, answers, k, n)) as real
  {
    hide Hits, Ratio, Scale;
    if n == 0 {
      ZeroScale(k);
      NothingYet(truth, answers, k);
    } else {
      MatchesAreTotal(truth, answers, k, n - 1);
      NextRecall(truth, answers, k, n - 1);
      var xs, hs := Recalls(truth, answers, k, n), HitCounts(truth, answers, k, n);
      assert xs[..n - 1] == Recalls(truth, answers, k, n - 1);
      assert hs[..n - 1] == HitCounts(truth, answers, k, n - 1);
      LastMatches(xs, hs, k);
    }
  }

  lemma LastMatches(xs: seq<real>, hs: seq<nat>, k: nat)
    requires k > 0 && |xs| == |hs| > 0 && xs[|xs| - 1] == Ratio(hs[|hs| - 1], k)
    requires Scale(Total(xs[..|xs| - 1]), k) == Sum(hs[..|hs| - 1]) as real
    ensures Scale(Total(xs), k) == Sum(hs) as real
  {
    hide Ratio, Scale;
    ScaleSum(Total(xs[..|xs| - 1]), hs[|hs| - 1], k);
  }

  lemma ZeroScale(k: nat)
    ensures Scale(0.0, k) == 0.0
  {
  }

  lemma ScaleSum(t: real, h: nat, k: nat)
    requires k > 0
    ensures Scale(t + Ratio(h, k), k) == Scale(t, k) + h as real
  {
    assert Ratio(h, k) * k as real == h as real;
  }

  lemma PerfectIsAll(truth: seq<Row>, answers: seq<Row>, k: nat, n: nat)
    requires n <= |truth| && n <= |answers| && Wide(truth, k) && Wide(answers, k)
    ensures |Perfect(truth, answers, k, n)| == n <==> forall i :: 0 <= i < n ==> Hits(truth[i], answers[i], k) == k
  {
    hide Hits;
    var all := UpTo(n);
    var p := Perfect(truth, answers, k, n);
    assert p <= all;
    assert all == p + (all - p);
    assert |all| == |p| + |all - p|;
    if |p| == n {
      assert all - p == {};
      forall i | 0 <= i < n
        ensures Hits(truth[i], answers[i], k) == k
      {
        assert i in p;
      }
    }
    if forall i :: 0 <= i < n ==> Hits(truth[i], answers[i], k) == k {
      assert p == all;
    }
  }

  // ------------------------------------------------------- what a summary means

  /** A row of ground truth without negative or repeated ids among its first k. */
  ghost predicate Sound(row: Row, k: nat)
    requires k <= |row|
  {
    (forall i :: 0 <= i < k ==> row[i] >= 0) && (forall i, j :: 0 <= i < j < k ==> row[i] != row[j])
  }

  lemma SoundIff(row: Row, k: nat)
    requires k <= |row|
    ensures GoodTruth(row, k) <==> Sound(row, k)
    ensures HasDuplicate(row, k) <==> exists i, j :: 0 <= i < j < k && row[i] == row[j]
  {
    DistinctSize(row[..k]);
    assert forall i :: 0 <= i < k ==> row[..k][i] == row[i];
  }

  /** The places of the truth whose id is among the first k returned. */
  ghost function FoundPlaces(truth: Row, answer: Row, k: nat): set<nat>
    requires k <= |truth| && k <= |answer|
  {
    set i: nat | i < k && exists j :: 0 <= j < k && answer[j] == truth[i]
  }

  lemma {:induction false} PlacesOfIds(row: Row, places: set<nat>)
    requires forall i :: i in places ==> i < |row|
    requires forall i, j :: i in places && j in places && i != j ==> row[i] != row[j]
    ensures |set i | i in places :: row[i]| == |places|
    decreases |places|
  {
    var ids := set i | i in places :: row[i];
    if places == {} {
      assert ids == {};
    } else {
      var p :| p in places;
      var rest := places - {p};
      PlacesOfIds(row, rest);
      assert ids == (set i | i in rest :: row[i]) + {row[p]};
      assert row[p] !in (set i | i in rest :: row[i]);
    }
  }

  lemma HitsAreFound(truth: Row, answer: Row, k: nat)
    requires k <= |truth| && k <= |answer| && Sound(truth, k)
    ensures Hits(truth, answer, k) == |FoundPlaces(truth, answer, k)|
  {
    var found := FoundPlaces(truth, answer, k);
    var ids := set i | i in found :: truth[i];
    PlacesOfIds(truth, found);
    forall id
      ensures id in Ids(truth[..k]) * Known(answer[..k]) <==> id in ids
    {
      if id in Ids(truth[..k]) * Known(answer[..k]) {
        var i :| 0 <= i < k && truth[..k][i] == id;
        var j :| 0 <= j < k && answer[..k][j] == id;
        assert answer[j] == truth[i] && i in found;
      }
      if id in ids {
        var i :| i in found && truth[i] == id;
        var j :| 0 <= j < k && answer[j] == truth[i];
        assert truth[..k][i] == id && answer[..k][j] == id;
      }
    }
    assert Ids(truth[..k]) * Known(answer[..k]) == ids;
  }

  /** What a summary says: `hits` are the places found for each query and `xs` the recalls. */
  ghost predicate Tells(s: Summary, truth: seq<Row>, answers: seq<Row>, k: nat, hits: seq<nat>, xs: seq<real>)
    requires k > 0 && 0 < |truth| == |answers| && Wide(truth, k) && Wide(answers, k)
  {
    && |hits| == |xs| == |truth|
    && (forall i :: 0 <= i < |truth| ==> hits[i] == |FoundPlaces(truth[i], answers[i], k)|)
    && (forall i :: 0 <= i < |truth| ==> Scale(xs[i], k) == hits[i] as real)
    && s.matches == Sum(hits)
    && Scale(Scale(s.mean, |truth|), k) == s.matches as real
    && s.lowest in xs && s.highest in xs && (forall x :: x in xs ==> s.lowest <= x <= s.highest)
    && Scale(s.variance, |truth|) == Deviations(xs, s.mean)
    && s.perfect == |set i: nat | i < |truth| && hits[i] == k|
  }

  ghost predicate SummaryOf(s: Summary, truth: seq<Row>, answers: seq<Row>, k: nat)
    requires k > 0 && 0 < |truth| == |answers| && Wide(truth, k) && Wide(answers, k)
  {
    exists hits, xs :: Tells(s, truth, answers, k, hits, xs)
  }

  lemma VarianceScales(xs: seq<real>, m: real, v: real)
    requires xs != [] && Scale(m, |xs|) == Total(xs) && v == Squares(xs) / |xs| as real - Sq(m)
    ensures Scale(v, |xs|) == Deviations(xs, m)
  {
    hide Sq, Expand, Scale, Total, Squares, Deviations;
    DeviationsExpand(xs, m);
    AtTheMean(Squares(xs), |xs|, m);
  }

  lemma RatioTimes(h: nat, k: nat)
    requires k > 0
    ensures Scale(Ratio(h, k), k) == h as real
  {
  }

  lemma CountsAreFound(truth: seq<Row>, answers: seq<Row>, k: nat, i: nat)
    requires k > 0 && |truth| == |answers| && Wide(truth, k) && Wide(answers, k)
    requires i < |truth| && Sound(truth[i], k)
    ensures
      var hits, xs := HitCounts(truth, answers, k, |truth|), Recalls(truth, answers, k, |truth|);
      && |hits| == |xs| == |truth| && hits[i] == Hits(truth[i], answers[i], k)
      && hits[i] == |FoundPlaces(truth[i], answers[i], k)|
      && Scale(xs[i], k) == hits[i] as real
  {
    var h := Hits(truth[i], answers[i], k);
    hide Hits, Ratio, Sound, FoundPlaces, Scale;
    HitsAreFound(truth[i], answers[i], k);
    RatioTimes(h, k);
  }

  lemma DescribedTells(s: Summary, truth: seq<Row>, answers: seq<Row>, k: nat)
    requires k > 0 && 0 < |truth| == |answers| && Wide(truth, k) && Wide(answers, k)
    requires Describes(s, truth, answers, k) && forall i :: 0 <= i < |truth| ==> Sound(truth[i], k)
    ensures SummaryOf(s, truth, answers, k)
  {
    var n := |truth|;
    var hits, xs := HitCounts(truth, answers, k, n), Recalls(truth, answers, k, n);
    hide Hits, Sq, Total, Squares, Sum, Deviations, Scale, Ratio, Sound, HitCounts, Recalls, FoundPlaces;
    SummaryIsCoherent(s, truth, answers, k);
    VarianceScales(xs, s.mean, s.variance);
    forall i | 0 <= i < n
      ensures hits[i] == |FoundPlaces(truth[i], answers[i], k)| && Scale(xs[i], k) == hits[i] as real
      ensures hits[i] == Hits(truth[i], answers[i], k)
    {
      CountsAreFound(truth, answers, k, i);
    }
    PerfectCounts(truth, answers, k, hits);
    hide Perfect, Wide;
    assert Tells(s, truth, answers, k, hits, xs);
  }

  lemma PerfectCounts(truth: seq<Row>, answers: seq<Row>, k: nat, hits: seq<nat>)
    requires |hits| == |truth| == |answers| && Wide(truth, k) && Wide(answers, k)
    requires forall i :: 0 <= i < |truth| ==> hits[i] == Hits(truth[i], answers[i], k)
    ensures Perfect(truth, answers, k, |truth|) == set i: nat | i < |truth| && hits[i] == k
  {
    hide Hits;
  }

  // -------------------------------------------------------------- computation

  ghost predicate Sorted(files: seq<ResultFile<Row>>, sorted: seq<ResultFile<Row>>)
  {
    multiset(sorted) == multiset(files) && Ordered(sorted)
  }

  /** Do the checks before the row loop pass? */
  predicate Comparable(truth: seq<Row>, files: seq<ResultFile<Row>>, k: nat)
    requires |truth| > 0
  {
    && files != [] && |truth| == |Concat(files)| && k <= |truth[0]|
    && (forall f :: f in files ==> |f.rows| > 0 ==> k <= |f.rows[0]|)
  }

  lemma {:induction false} ConcatWide(files: seq<ResultFile<Row>>, k: nat)
    requires forall f :: f in files ==> IsMatrix(f.rows) && k <= |f.rows[0]|
    ensures Wide(Concat(files), k)
  {
    if files != [] {
      var n := |files| - 1;
      ConcatWide(files[..n], k);
      assert files[n] in files;
    }
  }

  /** The row loop of `compute_recall`, over the ordered files. */
  method CompareRows(truth: seq<Row>, answers: seq<Row>, k: nat) returns (r: Outcome)
    requires k > 0 && 0 < |truth| == |answers| && Wide(truth, k) && Wide(answers, k)
    ensures r.Computed? || r.NegativeTruth? || r.DuplicateTruth?
    ensures r.Computed? ==> Describes(r.summary, truth, answers, k) && SummaryOf(r.summary, truth, answers, k)
    ensures r.Computed? <==> forall i :: 0 <= i < |truth| ==> Sound(truth[i], k)
    ensures r.NegativeTruth? ==> r.row < |truth| && exists i :: 0 <= i < k && truth[r.row][i] < 0
    ensures r.DuplicateTruth? ==>
            && r.row < |truth| && (forall i :: 0 <= i < k ==> truth[r.row][i] >= 0)
            && exists i, j :: 0 <= i < j < k && truth[r.row][i] == truth[r.row][j]
    ensures !r.Computed? ==> forall i :: 0 <= i < r.row ==> Sound(truth[i], k)
  {
    hide Hits, HasNegative, HasDuplicate, Sq, Ratio, Tallied, Describes, Sound, SummaryOf;
    var n := |truth|;
    var sum, squares, lowest, highest := 0.0, 0.0, 1.0, 0.0;
    var perfect, matches := 0, 0;
    NothingTallied(truth, answers, k);
    for i := 0 to n
      invariant Tallied(Tally(matches, sum, squares, lowest, highest, perfect), truth, answers, k, i)
      invariant forall j :: 0 <= j < i ==> Sound(truth[j], k)
    {
      RowChecks(truth[i], k);
      if HasNegative(truth[i], k) {
        return NegativeTruth(i);
      }
      if HasDuplicate(truth[i], k) {
        return DuplicateTruth(i);
      }
      TallyStep(Tally(matches, sum, squares, lowest, highest, perfect), truth, answers, k, i);
      var hits := Hits(truth[i], answers[i], k);
      var recall := Ratio(hits, k);
      matches := matches + hits;
      sum := sum + recall;
      squares := squares + Sq(recall);
      lowest := if recall < lowest then recall else lowest;
      highest := if recall > highest then recall else highest;
      if hits == k {
        perfect := perfect + 1;
      }
    }
    TallyEnd(Tally(matches, sum, squares, lowest, highest, perfect), truth, answers, k);
    var mean := sum / n as real;
    var variance := squares / n as real - Sq(mean);
    r := Computed(Summary(matches, mean, lowest, highest, if variance < 0.0 then 0.0 else variance, perfect));
    DescribedTells(r.summary, truth, answers, k);
  }

  lemma RowChecks(row: Row, k: nat)
    requires k <= |row|
    ensures Sound(row, k) <==> !HasNegative(row, k) && !HasDuplicate(row, k)
    ensures HasNegative(row, k) <==> exists i :: 0 <= i < k && row[i] < 0
    ensures HasDuplicate(row, k) <==> exists i, j :: 0 <= i < j < k && row[i] == row[j]
  {
    SoundIff(row, k);
  }

  /** The row loop's accumulators. */
  datatype Tally = Tally(matches: nat, sum: real, squares: real, lowest: real, highest: real, perfect: nat)
  {
    function Add(hits: nat, k: nat): Tally
      requires k > 0
    {
      var x := Ratio(hits, k);
      Tally(matches + hits, sum + x, squares + Sq(x), if x < lowest then x else lowest,
            if x > highest then x else highest, if hits == k then perfect + 1 else perfect)
    }
  }

  ghost predicate Tallied(t: Tally, truth: seq<Row>, answers: seq<Row>, k: nat, n: nat)
    requires k > 0 && n <= |truth| && n <= |answers| && Wide(truth, k) && Wide(answers, k)
  {
    TalliedOver(t, Recalls(truth, answers, k, n), HitCounts(truth, answers, k, n), |Perfect(truth, answers, k, n)|)
  }

  ghost predicate TalliedOver(t: Tally, recalls: seq<real>, hits: seq<nat>, perfect: nat)
  {
    && t.sum == Total(recalls)
    && t.squares == Squares(recalls)
    && t.matches == Sum(hits)
    && t.perfect == perfect
    && Range(recalls, t.lowest, t.highest)
  }

  lemma NextTally(t: Tally, recalls: seq<real>, hits: seq<nat>, perfect: nat, h: nat, k: nat)
    requires k > 0 && TalliedOver(t, recalls, hits, perfect) && 0.0 <= Ratio(h, k) <= 1.0
    ensures TalliedOver(t.Add(h, k), recalls + [Ratio(h, k)], hits + [h], if h == k then perfect + 1 else perfect)
  {
    hide Sq, Ratio, Range;
    var x := Ratio(h, k);
    assert (recalls + [x])[..|recalls|] == recalls && (hits + [h])[..|hits|] == hits;
    NextRange(recalls, t.lowest, t.highest, x);
  }

  /** Lowest and highest of some proportions, 1 and 0 when there are none. */
  ghost predicate Range(xs: seq<real>, lowest: real, highest: real)
  {
    && 0.0 <= lowest <= 1.0 && 0.0 <= highest <= 1.0
    && (forall x :: x in xs ==> lowest <= x <= highest)
    && (if xs == [] then lowest == 1.0 && highest == 0.0 else lowest in xs && highest in xs)
  }

  lemma NextRange(xs: seq<real>, lowest: real, highest: real, x: real)
    requires Range(xs, lowest, highest) && 0.0 <= x <= 1.0
    ensures Range(xs + [x], if x < lowest then x else lowest, if x > highest then x else highest)
  {
    var ys := xs + [x];
    assert x in ys;
    if xs != [] {
      assert lowest in ys && highest in ys;
    }
  }

  lemma NothingTallied(truth: seq<Row>, answers: seq<Row>, k: nat)
    requires k > 0 && Wide(truth, k) && Wide(answers, k)
    ensures Tallied(Tally(0, 0.0, 0.0, 1.0, 0.0, 0), truth, answers, k, 0)
  {
    hide Hits;
    NothingYet(truth, answers, k);
  }

  lemma TallyStep(t: Tally, truth: seq<Row>, answers: seq<Row>, k: nat, i: nat)
    requires k > 0 && i < |truth| && i < |answers| && Wide(truth, k) && Wide(answers, k)
    requires Tallied(t, truth, answers, k, i)
    ensures Tallied(t.Add(Hits(truth[i], answers[i], k), k), truth, answers, k, i + 1)
  {
    hide Hits, Ratio, Recalls, HitCounts, Perfect, TalliedOver, Tally.Add;
    NextRecall(truth, answers, k, i);
    NextPerfect(truth, answers, k, i);
    NextTally(t, Recalls(truth, answers, k, i), HitCounts(truth, answers, k, i), |Perfect(truth, answers, k, i)|,
              Hits(truth[i], answers[i], k), k);
  }

  lemma TallyEnd(t: Tally, truth: seq<Row>, answers: seq<Row>, k: nat)
    requires k > 0 && 0 < |truth| == |answers| && Wide(truth, k) && Wide(answers, k)
    requires Tallied(t, truth, answers, k, |truth|)
    ensures
      var mean := t.sum / |truth| as real;
      var variance := t.squares / |truth| as real - Sq(mean);
      && variance >= 0.0
      && Describes(Summary(t.matches, mean, t.lowest, t.highest, variance, t.perfect), truth, answers, k)
  {
    hide Hits, Sq, Recalls, HitCounts, Perfect, Scale, Total, Squares, Sum;
    RecallsAt(truth, answers, k, |truth|);
    MeanScales(t.sum, |truth|);
    VarianceIsNonNegative(Recalls(truth, answers, k, |truth|), t.sum / |truth| as real);
  }

  lemma MeanScales(sum: real, n: nat)
    requires n > 0
    ensures Scale(sum / n as real, n) == sum
  {
  }

  lemma NothingYet(truth: seq<Row>, answers: seq<Row>, k: nat)
    requires k > 0 && Wide(truth, k) && Wide(answers, k)
    ensures Recalls(truth, answers, k, 0) == [] && HitCounts(truth, answers, k, 0) == []
        && Perfect(truth, answers, k, 0) == {}
  {
  }

  lemma NextPerfect(truth: seq<Row>, answers: seq<Row>, k: nat, i: nat)
    requires i < |truth| && i < |answers| && Wide(truth, k) && Wide(answers, k)
    ensures |Perfect(truth, answers, k, i + 1)| ==
            if Hits(truth[i], answers[i], k) == k then |Perfect(truth, answers, k, i)| + 1
            else |Perfect(truth, answers, k, i)|
  {
    hide Hits;
    assert Perfect(truth, answers, k, i + 1) ==
           Perfect(truth, answers, k, i) + (if Hits(truth[i], answers[i], k) == k then {i} else {});
  }

  /** `compute_recall` over the files in their numeric order. */
  method ComputeRecall(truth: seq<Row>, sorted: seq<ResultFile<Row>>, k: nat) returns (r: Outcome)
    requires k > 0 && IsMatrix(truth) && forall f :: f in sorted ==> IsMatrix(f.rows)
    ensures r == NoMatrices <==> sorted == []
    ensures r == RowCountMismatch <==> sorted != [] && |truth| != |Concat(sorted)|
    ensures r == TooFewColumns <==>
            && sorted != [] && |truth| == |Concat(sorted)|
            && (|truth[0]| < k || exists f :: f in sorted && |f.rows| > 0 && |f.rows[0]| < k)
    ensures Comparable(truth, sorted, k) ==> Wide(truth, k) && Wide(Concat(sorted), k)
    ensures Comparable(truth, sorted, k) ==>
            (r.Computed? <==> forall i :: 0 <= i < |truth| ==> Sound(truth[i], k))
    ensures r.Computed? ==>
            && Comparable(truth, sorted, k) && Describes(r.summary, truth, Concat(sorted), k)
            && SummaryOf(r.summary, truth, Concat(sorted), k)
  {
    if sorted == [] {
      return NoMatrices;
    }
    if |truth| != |Concat(sorted)| {
      return RowCountMismatch;
    }
    if |truth[0]| < k || exists f :: f in sorted && |f.rows| > 0 && |f.rows[0]| < k {
      return TooFewColumns;
    }
    forall f | f in sorted
      ensures k <= |f.rows[0]|
    {
    }
    ConcatWide(sorted, k);
    r := CompareRows(truth, Concat(sorted), k);
  }

  /** End to end: for the files the clients wrote, in whatever order they were given, the
      summary compares every query's ground truth with that same query's answer. */
  lemma RecallOfAllClients(
      truth: seq<Row>, answers: seq<Row>, l: Layout, files: seq<ResultFile<Row>>, sorted: seq<ResultFile<Row>>,
      k: nat, s: Summary)
    requires l.Valid() && multiset(files) == multiset(Written(answers, l, l.total)) && Sorted(files, sorted)
    requires k > 0 && 0 < |truth| == |answers| && Wide(truth, k) && Wide(Concat(sorted), k)
    requires |Concat(sorted)| == |truth| && Describes(s, truth, Concat(sorted), k)
    ensures Wide(answers, k) && Describes(s, truth, answers, k)
    ensures (forall i :: 0 <= i < |truth| ==> Sound(truth[i], k)) ==> SummaryOf(s, truth, answers, k)
    ensures s.mean == 1.0 <==> forall i :: 0 <= i < |truth| ==>
        Ids(truth[i][..k]) * Known(answers[i][..k]) == Ids(truth[i][..k]) && |Ids(truth[i][..k])| == k
  {
    OrderedFilesAreTheAnswers(answers, l, sorted);
    hide Describes, Sound, SummaryOf;
    if forall i :: 0 <= i < |truth| ==> Sound(truth[i], k) {
      DescribedTells(s, truth, answers, k);
    }
    SummaryIsCoherent(s, truth, answers, k);
    forall i | 0 <= i < |truth|
      ensures Hits(truth[i], answers[i], k) == k <==>
              Ids(truth[i][..k]) * Known(answers[i][..k]) == Ids(truth[i][..k]) && |Ids(truth[i][..k])| == k
    {
      FullHits(truth[i], answers[i], k);
    }
  }

  lemma FullHits(e: Row, a: Row, k: nat)
    requires k <= |e| && k <= |a|
    ensures Hits(e, a, k) == k <==> Ids(e[..k]) * Known(a[..k]) == Ids(e[..k]) && |Ids(e[..k])| == k
  {
    FewIds(e[..k]);
    var x, y := Ids(e[..k]), Known(a[..k]);
    assert x == (x * y) + (x - y);
    assert |x| == |x * y| + |x - y|;
  }

  // ---------------------------------------------------------- rows on disk

  /** The size of the row structure the tool unpacks. For one-byte items the byte-order prefix
      it takes from the format is itself an item code, so a row counts one item too many. */
  function RowStructSize(item: nat, columns: nat): nat
  {
    if item == 1 then columns + 1 else item * columns
  }

  /** `load_npy_matrix` wants the payload to have exactly this size. */
  predicate SizeAccepted(payload: nat, rows: nat, columns: nat, item: nat)
  {
    payload == rows * columns * item
  }

  /** Does `iter_rows` get every row in full, reading one row structure after another? */
  ghost predicate EveryRowRead(payload: nat, rows: nat, columns: nat, item: nat)
  {
    forall i: nat {:trigger RowEnd(i, columns, item)} :: i < rows ==> RowEnd(i, columns, item) <= payload
  }

  function RowEnd(i: nat, columns: nat, item: nat): nat
  {
    (i + 1) * RowStructSize(item, columns)
  }

  /** An accepted matrix is read to its end, row for row, exactly when its items are not single
      bytes; a matrix of single bytes always ends in a truncated row. */
  lemma RowsReadIff(payload: nat, rows: nat, columns: nat, item: nat)
    requires rows > 0 && columns > 0 && (item == 1 || item == 2 || item == 4 || item == 8)
    requires SizeAccepted(payload, rows, columns, item)
    ensures EveryRowRead(payload, rows, columns, item) <==> item != 1
    ensures item != 1 ==> RowEnd(rows - 1, columns, item) == payload
  {
    if item == 1 {
      assert RowEnd(rows - 1, columns, item) == rows * columns + rows;
    } else {
      assert rows * columns * item == rows * (item * columns);
      forall i: nat | i < rows
        ensures RowEnd(i, columns, item) <= payload
      {
        RowEndsGrow(i, rows - 1, item * columns);
      }
    }
  }

  lemma RowEndsGrow(i: nat, j: nat, size: nat)
    requires i <= j
    ensures (i + 1) * size <= (j + 1) * size
  {
  }
}
