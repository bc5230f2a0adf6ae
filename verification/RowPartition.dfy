/** How rows are dealt out to workers and clients.

    The repository holds four splitters: a two-branch closed form (Go, and the Rust mixed
    client), a `min`-based closed form (Rust batch client and the Python bulk writer), and
    per-part counts followed by prefix sums (the Python inserter). A nested split first
    divides rows among workers and then among the clients of a worker. */
module RowPartition {
  import opened Basics

  /** A half-open row range. */
  datatype Slice = Slice(start: nat, end: nat)

  /** Consecutive slices that together cover exactly `[lo, hi)`. */
  ghost predicate Tiles(s: seq<Slice>, lo: nat, hi: nat)
  {
    && |s| > 0
    && s[0].start == lo
    && s[|s| - 1].end == hi
    && (forall i :: 0 <= i < |s| ==> s[i].start <= s[i].end)
    && (forall i, j :: 0 <= i && j == i + 1 < |s| ==> s[i].end == s[j].start)
  }

  // ---------------------------------------------------------------- tilings

  lemma {:induction false} TilesOrdered(s: seq<Slice>, lo: nat, hi: nat, i: nat, j: nat)
    requires Tiles(s, lo, hi) && i < j < |s|
    ensures s[i].end <= s[j].start
    decreases j - i
  {
    if i + 1 < j {
      TilesOrdered(s, lo, hi, i, j - 1);
      assert s[j - 1].end == s[j].start;
    }
  }

  lemma {:induction false} TilesBounds(s: seq<Slice>, lo: nat, hi: nat, i: nat)
    requires Tiles(s, lo, hi) && i < |s|
    ensures lo <= s[i].start <= s[i].end <= hi
  {
    if 0 < i {
      TilesOrdered(s, lo, hi, 0, i);
    }
    if i < |s| - 1 {
      TilesOrdered(s, lo, hi, i, |s| - 1);
    }
  }

  /** Every row has an owner... */
  lemma {:induction false} TilesCover(s: seq<Slice>, lo: nat, hi: nat, row: nat) returns (k: nat)
    requires Tiles(s, lo, hi) && lo <= row < hi
    ensures k < |s| && s[k].start <= row < s[k].end
  {
    k := 0;
    while s[k].end <= row
      invariant k < |s| && s[k].start <= row
      decreases |s| - k
    {
      if k == |s| - 1 {
        assert false;
      }
      assert s[k].end == s[k + 1].start;
      k := k + 1;
    }
  }

  /** ... and exactly one: the slices of a tiling partition the rows. */
  lemma {:induction false} TilesPartition(s: seq<Slice>, lo: nat, hi: nat, row: nat)
    requires Tiles(s, lo, hi)
    ensures lo <= row < hi <==> exists k :: 0 <= k < |s| && s[k].start <= row < s[k].end
    ensures forall j, k | 0 <= j < |s| && 0 <= k < |s| ::
              s[j].start <= row < s[j].end && s[k].start <= row < s[k].end ==> j == k
  {
    if lo <= row < hi {
      var k := TilesCover(s, lo, hi, row);
    }
    forall k | 0 <= k < |s| && s[k].start <= row < s[k].end
      ensures lo <= row < hi
    {
      TilesBounds(s, lo, hi, k);
    }
    forall j, k | 0 <= j < |s| && 0 <= k < |s|
                  && s[j].start <= row < s[j].end && s[k].start <= row < s[k].end
      ensures j == k
    {
      if j < k {
        TilesOrdered(s, lo, hi, j, k);
      } else if k < j {
        TilesOrdered(s, lo, hi, k, j);
      }
    }
  }

  // -------------------------------------------------------------- splitters

  /** Go `splitRange`, and the mixed clients' `splitRange`/`split_range`. */
  function SplitRange(n: nat, parts: int, idx: int): Slice
  {
    if parts <= 0 || idx < 0 || idx >= parts then
      Slice(0, 0)
    else
      var base := n / parts;
      var rem := n % parts;
      if idx < rem then
        Slice(idx * (base + 1), idx * (base + 1) + (base + 1))
      else
        Slice(rem * (base + 1) + (idx - rem) * base, rem * (base + 1) + (idx - rem) * base + base)
  }

  /** Rust `even_chunk` and Python `split_range`. */
  function EvenChunk(partIdx: nat, parts: nat, n: nat): Slice
    requires partIdx < parts
  {
    var base := n / parts;
    var rem := n % parts;
    var start := partIdx * base + Min(partIdx, rem);
    var extra := if partIdx < rem then 1 else 0;
    Slice(start, start + base + extra)
  }

  /** Python `split_counts`. */
  function SplitCounts(n: nat, k: nat): seq<nat>
    requires k > 0
  {
    seq(k, i requires 0 <= i < k => n / k + (if i < n % k then 1 else 0))
  }

  function Sum(xs: seq<nat>): nat
  {
    if xs == [] then 0 else Sum(xs[..|xs| - 1]) + xs[|xs| - 1]
  }

  lemma {:induction false} SumUpdate(xs: seq<nat>, i: nat, x: nat)
    requires i < |xs|
    ensures Sum(xs[i := x]) == Sum(xs) - xs[i] + x
  {
    var n := |xs| - 1;
    if i == n {
      assert xs[i := x][..n] == xs[..n];
    } else {
      assert xs[i := x][..n] == xs[..n][i := x];
      SumUpdate(xs[..n], i, x);
    }
  }

  lemma ClosedFormsAgree(n: nat, parts: nat, idx: nat)
    requires idx < parts
    ensures SplitRange(n, parts, idx) == EvenChunk(idx, parts, n)
  {
    var base := n / parts;
    var rem := n % parts;
    if idx < rem {
      assert idx * (base + 1) == idx * base + idx;
    } else {
      assert rem * (base + 1) + (idx - rem) * base == idx * base + rem by {
        assert rem * (base + 1) == rem * base + rem;
        assert (idx - rem) * base == idx * base - rem * base;
      }
    }
  }

  /** The inserter's start list: `[lo]`, then one running sum per count but the last. */
  method PrefixStarts(lo: nat, counts: seq<nat>) returns (starts: seq<nat>)
    requires |counts| > 0
    ensures |starts| == |counts|
    ensures forall i :: 0 <= i < |starts| ==> starts[i] == lo + Sum(counts[..i])
  {
    starts := [lo];
    for i := 0 to |counts| - 1
      invariant |starts| == i + 1
      invariant forall j :: 0 <= j <= i ==> starts[j] == lo + Sum(counts[..j])
    {
      assert counts[..i + 1][..i] == counts[..i];
      starts := starts + [starts[|starts| - 1] + counts[i]];
    }
  }

  lemma {:induction false} PrefixSumOfCounts(n: nat, k: nat, i: nat)
    requires 0 < k && i <= k
    ensures Sum(SplitCounts(n, k)[..i]) == i * (n / k) + Min(i, n % k)
  {
    var c := SplitCounts(n, k);
    if i > 0 {
      PrefixSumOfCounts(n, k, i - 1);
      assert c[..i][..i - 1] == c[..i - 1];
      assert i * (n / k) == (i - 1) * (n / k) + n / k;
    }
  }

  /** Counts with prefix sums give the same slices as the closed form. */
  lemma CountsAgree(n: nat, k: nat, i: nat)
    requires i < k
    ensures Sum(SplitCounts(n, k)[..i]) == SplitRange(n, k, i).start
    ensures Sum(SplitCounts(n, k)[..i]) + SplitCounts(n, k)[i] == SplitRange(n, k, i).end
  {
    PrefixSumOfCounts(n, k, i);
    ClosedFormsAgree(n, k, i);
  }

  lemma CountsSumToAll(n: nat, k: nat)
    requires k > 0
    ensures Sum(SplitCounts(n, k)) == n
  {
    PrefixSumOfCounts(n, k, k);
    assert SplitCounts(n, k)[..k] == SplitCounts(n, k);
  }

  /** All slices of one split. */
  ghost function Split(n: nat, parts: nat): (s: seq<Slice>)
  {
    seq(parts, i requires 0 <= i < parts => SplitRange(n, parts, i))
  }

  /** Rows owned by the first `i` parts. */
  function Offset(n: nat, parts: nat, i: nat): nat
    requires parts > 0
  {
    i * (n / parts) + Min(i, n % parts)
  }

  lemma SplitOffsets(n: nat, parts: nat, idx: nat)
    requires idx < parts
    ensures SplitRange(n, parts, idx) == Slice(Offset(n, parts, idx), Offset(n, parts, idx + 1))
    ensures Offset(n, parts, idx) <= Offset(n, parts, idx + 1)
  {
    hide SplitRange;
    ClosedFormsAgree(n, parts, idx);
    SuccessorTimes(idx, n / parts);
  }

  lemma SuccessorTimes(i: nat, b: nat)
    ensures (i + 1) * b == i * b + b
  {
  }

  lemma OffsetEnds(n: nat, parts: nat)
    requires parts > 0
    ensures Offset(n, parts, 0) == 0 && Offset(n, parts, parts) == n
  {
  }

  /** A slice starts where the slices before it end, and the last one ends at `n`. */
  lemma SplitFacts(n: nat, parts: nat, idx: nat)
    requires idx < parts
    ensures SplitRange(n, parts, idx).start <= SplitRange(n, parts, idx).end
    ensures idx == 0 ==> SplitRange(n, parts, idx).start == 0
    ensures idx + 1 < parts ==> SplitRange(n, parts, idx).end == SplitRange(n, parts, idx + 1).start
    ensures idx + 1 == parts ==> SplitRange(n, parts, idx).end == n
  {
    hide SplitRange, Offset;
    SplitOffsets(n, parts, idx);
    if idx + 1 < parts {
      SplitOffsets(n, parts, idx + 1);
    }
    OffsetEnds(n, parts);
  }

  lemma SplitTiles(n: nat, parts: nat)
    requires parts > 0
    ensures Tiles(Split(n, parts), 0, n)
  {
    hide SplitRange;
    var s := Split(n, parts);
    forall i | 0 <= i < parts
      ensures s[i].start <= s[i].end
      ensures i == 0 ==> s[i].start == 0
      ensures i + 1 == parts ==> s[i].end == n
    {
      SplitFacts(n, parts, i);
    }
    forall i, j | 0 <= i && j == i + 1 < |s|
      ensures s[i].end == s[j].start
    {
      SplitFacts(n, parts, i);
    }
  }

  function Size(s: Slice): int
  {
    s.end - s.start
  }

  lemma SplitSizes(n: nat, parts: nat, idx: nat)
    requires idx < parts
    ensures Size(SplitRange(n, parts, idx)) == n / parts + (if idx < n % parts then 1 else 0)
  {
    ClosedFormsAgree(n, parts, idx);
  }

  /** The numbers of the parts are those from 0 on; under any other number nothing is dealt. */
  lemma SplitElsewhere(n: nat, parts: int, idx: int)
    requires !(0 <= idx < parts)
    ensures SplitRange(n, parts, idx) == Slice(0, 0)
  {
  }

  // ------------------------------------------------ workers and their clients

  /** How a batch client run is laid out. `total` counts the clients that run; when it was
      given explicitly the rows are split among exactly those, otherwise
      `total == workers * perWorker` and the split is nested. */
  datatype Layout = Layout(workers: nat, perWorker: nat, total: nat, explicit: bool)
  {
    /** What `main` has checked before any client starts. */
    ghost predicate Valid()
    {
      && workers > 0 && perWorker > 0
      && 0 < total <= workers * perWorker
      && (!explicit ==> total == workers * perWorker)
    }
  }

  datatype RankResult = Ranked(worker: nat, client: nat) | BadRank

  /** Go `workerAndClientForGlobalRank`. */
  function WorkerAndClient(globalRank: nat, nWorkers: nat, perWorker: int): RankResult
  {
    if perWorker <= 0 then BadRank
    else if globalRank / perWorker >= nWorkers then BadRank
    else Ranked(globalRank / perWorker, globalRank % perWorker)
  }

  /** Go `clientRange`. */
  function ClientRange(rows: nat, worker: nat, client: nat, l: Layout): Slice
  {
    if l.explicit then
      SplitRange(rows, l.total, worker * l.perWorker + client)
    else
      var w := SplitRange(rows, l.workers, worker);
      var c := SplitRange(if w.start <= w.end then w.end - w.start else 0, l.perWorker, client);
      Slice(w.start + c.start, w.start + c.end)
  }

  /** The slice of the client with a given global rank (Rust `range_for_rank` and
      `range_for_rank_total_clients`). */
  function RankRange(rows: nat, rank: nat, l: Layout): Slice
    requires l.perWorker > 0
  {
    ClientRange(rows, rank / l.perWorker, rank % l.perWorker, l)
  }

  /** Rust `range_for_rank`, on its own splitter. The asserts at its head are the requires. */
  function RangeForRank(rank: nat, nWorkers: nat, perWorker: nat, rows: nat): Slice
    requires nWorkers > 0 && rank < nWorkers * perWorker
  {
    assert perWorker > 0 by { assert nWorkers * 0 == 0; }
    var workerId := rank / perWorker;
    assert workerId < nWorkers by { QuotientBelow(rank, nWorkers, perWorker); }
    var w := EvenChunk(workerId, nWorkers, rows);
    var c := EvenChunk(rank % perWorker, perWorker, w.end - w.start);
    Slice(w.start + c.start, w.start + c.end)
  }

  lemma QuotientBelow(rank: nat, workers: nat, per: nat)
    requires per > 0 && rank < workers * per
    ensures rank / per < workers
  {
    assert per * (rank / per) + rank % per == rank;
    assert per * (workers - 1) + per == workers * per;
    MulCancel(per, rank / per, workers - 1);
  }

  /** The Rust batch client deals rows exactly as the Go batch clients do. */
  lemma RustRangesAgree(rows: nat, l: Layout, rank: nat)
    requires l.Valid() && !l.explicit && rank < l.total
    ensures RangeForRank(rank, l.workers, l.perWorker, rows) == RankRange(rows, rank, l)
  {
    hide SplitRange, EvenChunk;
    RanksAreMapped(l, rank);
    SplitFacts(rows, l.workers, rank / l.perWorker);
    ClosedFormsAgree(rows, l.workers, rank / l.perWorker);
    var w := SplitRange(rows, l.workers, rank / l.perWorker);
    ClosedFormsAgree(w.end - w.start, l.perWorker, rank % l.perWorker);
  }

  ghost function RankSlices(rows: nat, l: Layout): seq<Slice>
    requires l.perWorker > 0
  {
    seq(l.total, r requires 0 <= r < l.total => RankRange(rows, r, l))
  }

  lemma DivModUnique(n: nat, d: nat, q: nat, r: nat)
    requires d > 0 && n == d * q + r && r < d
    ensures n / d == q && n % d == r
  {
    assert n == d * (n / d) + n % d;
    MulCancel(d, n / d, q);
    MulCancel(d, q, n / d);
  }

  lemma MulCancel(d: nat, a: int, b: int)
    requires d > 0 && d * a < d * b + d
    ensures a <= b
  {
    assert d * (b + 1) == d * b + d;
    assert a > b ==> d * a >= d * (b + 1);
  }

  /** Every rank the spawn loop uses maps to a worker that exists. */
  lemma RanksAreMapped(l: Layout, rank: nat)
    requires l.Valid() && rank < l.total
    ensures WorkerAndClient(rank, l.workers, l.perWorker)
         == Ranked(rank / l.perWorker, rank % l.perWorker)
    ensures rank / l.perWorker < l.workers && rank % l.perWorker < l.perWorker
    ensures rank / l.perWorker * l.perWorker + rank % l.perWorker == rank
  {
    var w := rank / l.perWorker;
    assert l.perWorker * w + rank % l.perWorker == rank;
    assert l.perWorker * w < l.perWorker * (l.workers - 1) + l.perWorker by {
      assert l.perWorker * (l.workers - 1) + l.perWorker == l.workers * l.perWorker;
    }
    MulCancel(l.perWorker, w, l.workers - 1);
  }

  /** And a rank past what the workers hold is refused. */
  lemma BadRankIff(rank: nat, nWorkers: nat, perWorker: int)
    ensures WorkerAndClient(rank, nWorkers, perWorker).BadRank? <==> perWorker <= 0 || rank >= nWorkers * perWorker
  {
    if perWorker > 0 {
      DivBounds(rank, perWorker);
      if rank / perWorker >= nWorkers {
        MulMono(perWorker, nWorkers, rank / perWorker);
      } else {
        MulMono(perWorker, rank / perWorker + 1, nWorkers);
        assert perWorker * (rank / perWorker + 1) == rank / perWorker * perWorker + perWorker;
      }
    }
  }

  lemma NestedSuccessor(l: Layout, rank: nat)
    requires l.Valid() && rank + 1 < l.total
    ensures rank % l.perWorker + 1 < l.perWorker ==>
              (rank + 1) / l.perWorker == rank / l.perWorker
              && (rank + 1) % l.perWorker == rank % l.perWorker + 1
    ensures rank % l.perWorker + 1 == l.perWorker ==>
              (rank + 1) / l.perWorker == rank / l.perWorker + 1
              && (rank + 1) % l.perWorker == 0
  {
    var p := l.perWorker;
    assert rank == p * (rank / p) + rank % p;
    if rank % p + 1 < p {
      DivModUnique(rank + 1, p, rank / p, rank % p + 1);
    } else {
      assert p * (rank / p + 1) == p * (rank / p) + p;
      DivModUnique(rank + 1, p, rank / p + 1, 0);
    }
  }

  lemma NestedStep(rows: nat, l: Layout, rank: nat)
    requires l.Valid() && !l.explicit && rank + 1 < l.total
    ensures RankRange(rows, rank, l).end == RankRange(rows, rank + 1, l).start
  {
    hide SplitRange;
    RanksAreMapped(l, rank);
    RanksAreMapped(l, rank + 1);
    NestedSuccessor(l, rank);
    var w, c := rank / l.perWorker, rank % l.perWorker;
    SplitFacts(rows, l.workers, w);
    var here := SplitRange(rows, l.workers, w);
    SplitFacts(here.end - here.start, l.perWorker, c);
    if c + 1 == l.perWorker {
      var next := SplitRange(rows, l.workers, w + 1);
      SplitFacts(rows, l.workers, w + 1);
      SplitFacts(next.end - next.start, l.perWorker, 0);
    }
  }

  lemma LastRank(l: Layout)
    requires l.Valid() && !l.explicit
    ensures (l.total - 1) / l.perWorker == l.workers - 1
    ensures (l.total - 1) % l.perWorker == l.perWorker - 1
  {
    var p := l.perWorker;
    assert p * (l.workers - 1) == p * l.workers - p;
    DivModUnique(l.total - 1, p, l.workers - 1, p - 1);
  }

  lemma NestedEnds(rows: nat, l: Layout)
    requires l.Valid() && !l.explicit
    ensures RankRange(rows, 0, l).start == 0
    ensures RankRange(rows, l.total - 1, l).end == rows
  {
    hide SplitRange;
    RanksAreMapped(l, 0);
    RanksAreMapped(l, l.total - 1);
    var p := l.perWorker;
    var last := l.total - 1;
    LastRank(l);
    DivModUnique(0, p, 0, 0);
    SplitFacts(rows, l.workers, 0);
    var first := SplitRange(rows, l.workers, 0);
    SplitFacts(first.end - first.start, p, 0);
    SplitFacts(rows, l.workers, l.workers - 1);
    var final := SplitRange(rows, l.workers, l.workers - 1);
    SplitFacts(final.end - final.start, p, p - 1);
  }

  lemma NestedOrdered(rows: nat, l: Layout, rank: nat)
    requires l.Valid() && !l.explicit && rank < l.total
    ensures RankRange(rows, rank, l).start <= RankRange(rows, rank, l).end
  {
    RanksAreMapped(l, rank);
    SplitFacts(rows, l.workers, rank / l.perWorker);
    var w := SplitRange(rows, l.workers, rank / l.perWorker);
    SplitFacts(w.end - w.start, l.perWorker, rank % l.perWorker);
  }

  lemma ExplicitRank(rows: nat, l: Layout, rank: nat)
    requires l.Valid() && l.explicit && rank < l.total
    ensures RankRange(rows, rank, l) == SplitRange(rows, l.total, rank)
  {
    RanksAreMapped(l, rank);
  }

  /** Both ways of laying out a run deal every row to exactly one rank, in rank order. */
  lemma RankSlicesTile(rows: nat, l: Layout)
    requires l.Valid()
    ensures Tiles(RankSlices(rows, l), 0, rows)
  {
    var s := RankSlices(rows, l);
    if l.explicit {
      SplitTiles(rows, l.total);
      forall i | 0 <= i < l.total
        ensures s[i] == Split(rows, l.total)[i]
      {
        ExplicitRank(rows, l, i);
      }
    } else {
      NestedEnds(rows, l);
      forall i | 0 <= i < |s|
        ensures s[i].start <= s[i].end
      {
        NestedOrdered(rows, l, i);
      }
      forall i, j | 0 <= i && j == i + 1 < |s|
        ensures s[i].end == s[j].start
      {
        NestedStep(rows, l, i);
      }
    }
  }

  // ------------------------------------------------------------- slice sizes

  /** A number within one of `k*parts` splits into parts of size `k` or `k+1`. */
  lemma SizeFromQuotient(n: nat, parts: nat, idx: nat, k: nat)
    requires idx < parts && parts * k <= n <= parts * k + parts
    ensures k <= Size(SplitRange(n, parts, idx)) <= k + 1
  {
    SplitSizes(n, parts, idx);
    if n == parts * k + parts {
      assert n == parts * (k + 1) + 0 by { assert parts * (k + 1) == parts * k + parts; }
      DivModUnique(n, parts, k + 1, 0);
    } else {
      DivModUnique(n, parts, k, n - parts * k);
    }
  }

  /** The worker slices of a nested split, seen through the quotient by all clients. */
  lemma WorkerSizeBounds(rows: nat, l: Layout, worker: nat)
    requires l.Valid() && worker < l.workers
    ensures
      var k := rows / (l.workers * l.perWorker);
      l.perWorker * k <= Size(SplitRange(rows, l.workers, worker)) <= l.perWorker * k + l.perWorker
  {
    QuotientOfProduct(rows, l.workers, l.perWorker);
    SplitSizes(rows, l.workers, worker);
  }

  /** `n / w` lies in the block of width `p` that `n / (w * p)` names. */
  lemma QuotientOfProduct(n: nat, w: nat, p: nat)
    requires w > 0 && p > 0
    ensures w * p > 0
    ensures p * (n / (w * p)) <= n / w < p * (n / (w * p)) + p
  {
    var all := w * p;
    assert all > 0;
    var pk := p * (n / all);
    assert w * pk == all * (n / all);
    QuotientBetween(n, w, pk, p);
  }

  lemma QuotientBetween(n: nat, w: nat, pk: nat, p: nat)
    requires w > 0 && w * pk <= n < w * pk + w * p
    ensures pk <= n / w < pk + p
  {
    assert n == w * (n / w) + n % w;
    MulCancel(w, pk, n / w);
    assert w * (pk + p - 1) + w == w * pk + w * p;
    MulCancel(w, n / w, pk + p - 1);
  }

  lemma MulMono(a: nat, b: int, c: int)
    requires b <= c
    ensures a * b <= a * c
  {
  }

  lemma NestedSizes(rows: nat, l: Layout, worker: nat, client: nat)
    requires l.Valid() && !l.explicit && worker < l.workers && client < l.perWorker
    ensures rows / l.total <= Size(ClientRange(rows, worker, client, l)) <= rows / l.total + 1
  {
    hide SplitRange;
    SplitFacts(rows, l.workers, worker);
    WorkerSizeBounds(rows, l, worker);
    var w := SplitRange(rows, l.workers, worker);
    SplitFacts(w.end - w.start, l.perWorker, client);
    SizeFromQuotient(w.end - w.start, l.perWorker, client, rows / l.total);
  }

  /** No two clients differ by more than one row, nested or not. */
  lemma RankSizes(rows: nat, l: Layout, rank: nat)
    requires l.Valid() && rank < l.total
    ensures rows / l.total <= Size(RankRange(rows, rank, l)) <= rows / l.total + 1
  {
    hide SplitRange, Size, ClientRange;
    if l.explicit {
      ExplicitRank(rows, l, rank);
      SplitSizes(rows, l.total, rank);
    } else {
      RanksAreMapped(l, rank);
      NestedSizes(rows, l, rank / l.perWorker, rank % l.perWorker);
    }
  }

  /** A rank is idle when its slice is empty. */
  predicate HasRows(rows: nat, rank: nat, l: Layout)
    requires l.perWorker > 0
  {
    RankRange(rows, rank, l).end > RankRange(rows, rank, l).start
  }

  /** Nobody is idle exactly when there are at least as many rows as clients. */
  lemma AllBusyIff(rows: nat, l: Layout)
    requires l.Valid()
    ensures (forall r :: 0 <= r < l.total ==> HasRows(rows, r, l)) <==> rows >= l.total
  {
    if rows >= l.total {
      forall r | 0 <= r < l.total
        ensures HasRows(rows, r, l)
      {
        EnoughRowsKeepBusy(rows, l, r);
      }
    }
    if forall r :: 0 <= r < l.total ==> HasRows(rows, r, l) {
      AllBusyNeedsRows(rows, l);
    }
  }

  lemma EnoughRowsKeepBusy(rows: nat, l: Layout, r: nat)
    requires l.Valid() && rows >= l.total && r < l.total
    ensures HasRows(rows, r, l)
  {
    QuotientPositive(rows, l.total);
    RankSizes(rows, l, r);
  }

  lemma AllBusyNeedsRows(rows: nat, l: Layout)
    requires l.Valid() && forall r :: 0 <= r < l.total ==> HasRows(rows, r, l)
    ensures rows >= l.total
  {
    RankSlicesTile(rows, l);
    var s := RankSlices(rows, l);
    forall i | 0 <= i < |s|
      ensures s[i].start < s[i].end
    {
      assert HasRows(rows, i, l);
    }
    BusyTilesAreLong(s, 0, rows, l.total);
  }

  lemma QuotientPositive(n: nat, d: nat)
    requires d > 0
    ensures n / d > 0 <==> n >= d
  {
    assert n == d * (n / d) + n % d;
  }

  lemma {:induction false} BusyTilesAreLong(s: seq<Slice>, lo: nat, hi: nat, k: nat)
    requires Tiles(s, lo, hi) && 0 < k <= |s|
    requires forall i :: 0 <= i < |s| ==> s[i].start < s[i].end
    ensures s[k - 1].end >= lo + k
  {
    if k > 1 {
      BusyTilesAreLong(s, lo, hi, k - 1);
      assert s[k - 2].end == s[k - 1].start;
    }
  }

  /** Remainders go to the earliest parts, so rank 0 is idle only when there are no rows. */
  lemma RankZeroHasRows(rows: nat, l: Layout)
    requires l.Valid()
    ensures HasRows(rows, 0, l) <==> rows > 0
  {
    DivModUnique(0, l.perWorker, 0, 0);
    RankSlicesTile(rows, l);
    TilesBounds(RankSlices(rows, l), 0, rows, 0);
    assert RankSlices(rows, l)[0] == RankRange(rows, 0, l);
    if rows > 0 {
      if l.explicit {
        FirstPartNonEmpty(rows, l.total);
      } else {
        FirstPartNonEmpty(rows, l.workers);
        var w := SplitRange(rows, l.workers, 0);
        FirstPartNonEmpty(w.end - w.start, l.perWorker);
      }
    }
  }

  lemma FirstPartNonEmpty(n: nat, parts: nat)
    requires parts > 0 && n > 0
    ensures SplitRange(n, parts, 0).start == 0 < SplitRange(n, parts, 0).end
  {
    assert n == parts * (n / parts) + n % parts;
    assert 0 * (n / parts + 1) == 0;
  }

  // ------------------------------------------------- routing mixed-run clients

  datatype TargetResult = Target(worker: nat) | TargetError

  /** Rust `target_worker_id`; `None` parameters are modelled by a presence flag. */
  function TargetWorker(hasWorkers: bool, nWorkers: nat, hasPer: bool, per: nat, total: nat, client: nat): TargetResult
  {
    if !hasWorkers || nWorkers == 0 then TargetError
    else if hasPer then
      (if per == 0 then TargetError else Target(Min(client / per, nWorkers - 1)))
    else if total == 0 then TargetError
    else Target(Min((client * nWorkers) / total, nWorkers - 1))
  }

  /** Without an explicit per-worker count the clamp never binds: clients go to workers in
      order, starting at worker 0 and never reaching a worker that does not exist. */
  lemma TargetIsProportional(nWorkers: nat, total: nat, c: nat, d: nat)
    requires nWorkers > 0 && c <= d < total
    ensures TargetWorker(true, nWorkers, false, 0, total, c).Target?
    ensures TargetWorker(true, nWorkers, false, 0, total, d).Target?
    ensures TargetWorker(true, nWorkers, false, 0, total, d).worker == (d * nWorkers) / total
    ensures TargetWorker(true, nWorkers, false, 0, total, c).worker
         <= TargetWorker(true, nWorkers, false, 0, total, d).worker
  {
    ProportionBelow(nWorkers, total, c);
    ProportionBelow(nWorkers, total, d);
    MulMono(nWorkers, c, d);
    assert c * nWorkers <= d * nWorkers;
    DivMono(c * nWorkers, d * nWorkers, total);
  }

  /** Who goes where. With a count per worker, worker w takes the clients from w * per up to
      (w + 1) * per, and the last worker all that are left; without one, those whose share of the
      clients lies within w's share of the workers. An error means that a number is missing or 0. */
  lemma TargetMeans(hasWorkers: bool, nWorkers: nat, hasPer: bool, per: nat, total: nat, client: nat)
    ensures
      var t := TargetWorker(hasWorkers, nWorkers, hasPer, per, total, client);
      && (t == TargetError <==> !hasWorkers || nWorkers == 0 || (if hasPer then per == 0 else total == 0))
      && (t.Target? ==> t.worker < nWorkers)
      && (t.Target? && hasPer ==>
            && t.worker * per <= client
            && (t.worker < nWorkers - 1 ==> client < t.worker * per + per))
      && (t.Target? && !hasPer && client < total ==>
            t.worker * total <= client * nWorkers < t.worker * total + total)
  {
    if hasWorkers && nWorkers > 0 && hasPer && per > 0 {
      DivBounds(client, per);
      if client / per > nWorkers - 1 {
        MulMono(per, nWorkers - 1, client / per);
      }
    } else if hasWorkers && nWorkers > 0 && !hasPer && client < total {
      ProportionBelow(nWorkers, total, client);
      DivBounds(client * nWorkers, total);
    }
  }

  lemma DivBounds(n: nat, d: nat)
    requires d > 0
    ensures n / d * d <= n < n / d * d + d
  {
  }

  lemma ProportionBelow(nWorkers: nat, total: nat, d: nat)
    requires nWorkers > 0 && d < total
    ensures (d * nWorkers) / total < nWorkers
  {
    var q := (d * nWorkers) / total;
    assert d * nWorkers == total * q + (d * nWorkers) % total;
    assert d * nWorkers + (total - d) * nWorkers == total * nWorkers;
    assert (total - d) * nWorkers > 0;
    assert total * (nWorkers - 1) + total == total * nWorkers;
    MulCancel(total, q, nWorkers - 1);
  }

  lemma DivMono(a: nat, b: nat, d: nat)
    requires d > 0 && a <= b
    ensures a / d <= b / d
  {
    assert a == d * (a / d) + a % d;
    assert b == d * (b / d) + b % d;
    MulCancel(d, a / d, b / d);
  }

  // ------------------------------------------------------------- rows a client

  function RowCount(rows: nat, rank: nat, l: Layout): nat
    requires l.perWorker > 0
  {
    var r := RankRange(rows, rank, l);
    if r.end >= r.start then r.end - r.start else 0
  }

  /** How many rows each client has. */
  function RowCounts(rows: nat, l: Layout): (counts: seq<nat>)
    requires l.perWorker > 0
    ensures |counts| == l.total
  {
    seq(l.total, c requires c >= 0 => RowCount(rows, c, l))
  }

  lemma RowCountMeans(rows: nat, l: Layout, c: nat)
    requires l.Valid() && c < l.total
    ensures RowCounts(rows, l)[c] > 0 <==> HasRows(rows, c, l)
    ensures HasRows(rows, c, l) ==> rows > 0
  {
    hide RankRange;
    RankSlicesTile(rows, l);
    TilesBounds(RankSlices(rows, l), 0, rows, c);
    assert RankSlices(rows, l)[c] == RankRange(rows, c, l);
  }

  lemma {:induction false} CountsUpTo(rows: nat, l: Layout, k: nat)
    requires l.Valid() && k <= l.total
    ensures Sum(RowCounts(rows, l)[..k]) == if k == 0 then 0 else RankRange(rows, k - 1, l).end
    ensures k == l.total ==> Sum(RowCounts(rows, l)[..k]) == rows
  {
    hide RankRange;
    if k > 0 {
      var counts := RowCounts(rows, l);
      assert counts[..k][..k - 1] == counts[..k - 1];
      CountsUpTo(rows, l, k - 1);
      var s := RankSlices(rows, l);
      RankSlicesTile(rows, l);
      assert s[k - 1] == RankRange(rows, k - 1, l) && s[k - 1].start <= s[k - 1].end;
      if k > 1 {
        assert s[k - 2] == RankRange(rows, k - 2, l) && s[k - 2].end == s[k - 1].start;
      }
    }
  }

  /** The clients' rows add up to all rows, rank 0 has some if there are any, and everybody
      has some if and only if there are enough. */
  lemma RowCountFacts(rows: nat, l: Layout)
    requires l.Valid()
    ensures Sum(RowCounts(rows, l)) == rows
    ensures RowCounts(rows, l)[0] > 0 <==> rows > 0
    ensures forall c :: 0 <= c < l.total ==> RowCounts(rows, l)[c] > 0 ==> rows > 0
    ensures (forall c :: 0 <= c < l.total ==> RowCounts(rows, l)[c] > 0) <==> rows >= l.total
  {
    var counts := RowCounts(rows, l);
    CountsUpTo(rows, l, l.total);
    assert counts[..l.total] == counts;
    RankZeroHasRows(rows, l);
    AllBusyIff(rows, l);
    hide RowCounts, HasRows, Layout.Valid;
    forall c: nat | c < l.total
      ensures counts[c] > 0 <==> HasRows(rows, c, l)
      ensures counts[c] > 0 ==> rows > 0
    {
      RowCountMeans(rows, l, c);
    }
    assert 0 < l.total by { LayoutHasClients(l); }
  }

  lemma LayoutHasClients(l: Layout)
    requires l.Valid()
    ensures l.total > 0
  {
  }
}
