/** Running top-k over scored candidates, and why a running state that is merged with
    chunk-local winners is a top-k of everything merged so far.

    Scores are reals; how numpy breaks ties is left open: sorting is known to the rest of
    the model only through `Argsort`'s contract. */
module TopK {
  import opened Basics

  datatype Metric = Dot | Cosine | L2

  /** A score, or the filler that `init_topk_state` puts in unused places: `+inf` for L2 and
      `-inf` otherwise, that is, worse than every score. */
  datatype Score = Filler | Real(value: real)

  datatype Entry = Entry(score: Score, id: int)

  const PAD := Entry(Filler, -1)

  /** `a` may stand before `b` in a ranking: smaller distance first, larger similarity first. */
  predicate NoWorse(m: Metric, a: Score, b: Score)
  {
    match (a, b)
    case (_, Filler) => true
    case (Filler, Real(_)) => false
    case (Real(x), Real(y)) => if m == L2 then x <= y else x >= y
  }

  ghost predicate Ranked(m: Metric, s: seq<Entry>)
  {
    forall i, j :: 0 <= i < j < |s| ==> NoWorse(m, s[i].score, s[j].score)
  }

  /** The tie-agnostic meaning of "the k best of `cands`": as many entries as there can be,
      each a candidate with its own score, ranked, and no left-out candidate strictly better
      than a kept one. */
  ghost predicate IsTopK(m: Metric, best: seq<Entry>, cands: multiset<Entry>, k: nat)
  {
    && multiset(best) <= cands
    && |best| == Min(k, |cands|)
    && Ranked(m, best)
    && forall i, d :: 0 <= i < |best| && d in cands - multiset(best) ==> NoWorse(m, best[i].score, d.score)
  }

  lemma KeptIsCandidate(m: Metric, best: seq<Entry>, cands: multiset<Entry>, k: nat, i: nat)
    requires IsTopK(m, best, cands, k) && i < |best|
    ensures best[i] in cands
  {
    assert best[i] in multiset(best);
  }

  /** Any two top-k answers for the same candidates hold the same scores in the same order. */
  lemma {:induction false} TopKScoresUnique(
      m: Metric, a: seq<Entry>, b: seq<Entry>, cands: multiset<Entry>, k: nat, i: nat)
    requires IsTopK(m, a, cands, k) && IsTopK(m, b, cands, k) && i < |a|
    ensures |a| == |b| && NoWorse(m, a[i].score, b[i].score) && NoWorse(m, b[i].score, a[i].score)
  {
    TopKNoLater(m, a, b, cands, k, i);
    TopKNoLater(m, b, a, cands, k, i);
  }

  lemma TopKNoLater(m: Metric, a: seq<Entry>, b: seq<Entry>, cands: multiset<Entry>, k: nat, i: nat)
    requires IsTopK(m, a, cands, k) && IsTopK(m, b, cands, k) && i < |a|
    ensures |a| == |b| && NoWorse(m, a[i].score, b[i].score)
  {
    if !NoWorse(m, a[i].score, b[i].score) {
      // b[..i + 1] is strictly better than a[i], so a keeps all of it, before place i
      var better := multiset(b[..i + 1]);
      BetterPrefix(m, a[i].score, b, i);
      hide NoWorse;
      StrictlyBetterIsKept(m, a, cands, k, i, better);
      StrictlyBetterComeFirst(m, a, i, better);
    }
  }

  lemma BetterPrefix(m: Metric, worse: Score, b: seq<Entry>, i: nat)
    requires Ranked(m, b) && i < |b| && !NoWorse(m, worse, b[i].score)
    ensures multiset(b[..i + 1]) <= multiset(b) && |multiset(b[..i + 1])| == i + 1
    ensures forall x :: x in multiset(b[..i + 1]) ==> !NoWorse(m, worse, x.score)
  {
    assert b == b[..i + 1] + b[i + 1..];
    forall x | x in multiset(b[..i + 1])
      ensures !NoWorse(m, worse, x.score)
    {
      assert x in b[..i + 1];
      var p :| 0 <= p <= i && b[p] == x;
      assert p < i ==> NoWorse(m, b[p].score, b[i].score);
    }
  }

  /** Candidates strictly better than a kept entry are kept themselves. */
  lemma StrictlyBetterIsKept(m: Metric, a: seq<Entry>, cands: multiset<Entry>, k: nat, i: nat, xs: multiset<Entry>)
    requires IsTopK(m, a, cands, k) && i < |a| && xs <= cands
    requires forall x :: x in xs ==> !NoWorse(m, a[i].score, x.score)
    ensures xs <= multiset(a)
  {
    forall x | x in xs
      ensures xs[x] <= multiset(a)[x]
    {
      assert x !in cands - multiset(a);
    }
  }

  /** Entries strictly better than the one at place `i` all stand before it. */
  lemma StrictlyBetterComeFirst(m: Metric, s: seq<Entry>, i: nat, xs: multiset<Entry>)
    requires Ranked(m, s) && i < |s| && xs <= multiset(s)
    requires forall x :: x in xs ==> !NoWorse(m, s[i].score, x.score)
    ensures |xs| <= i
  {
    assert s == s[..i] + s[i..];
    assert multiset(s) == multiset(s[..i]) + multiset(s[i..]);
    forall x | x in xs
      ensures xs[x] <= multiset(s[..i])[x]
    {
      forall q | 0 <= q < |s[i..]|
        ensures s[i..][q] != x
      {
        assert s[i..][q] == s[i + q];
        assert q > 0 ==> NoWorse(m, s[i].score, s[i + q].score);
      }
      assert x !in s[i..];
    }
    SubmultisetSize(xs, multiset(s[..i]));
    assert |multiset(s[..i])| == i;
  }

  lemma {:induction false} SubmultisetSize<T>(a: multiset<T>, b: multiset<T>)
    requires forall x :: x in a ==> a[x] <= b[x]
    ensures |a| <= |b|
  {
    assert a <= b;
    assert b == a + (b - a);
  }

  // ---------------------------------------------------------------- sorting

  function InsertRanked(m: Metric, x: Entry, s: seq<Entry>): (r: seq<Entry>)
    ensures |r| == |s| + 1
  {
    if s == [] then [x]
    else if NoWorse(m, x.score, s[0].score) then [x] + s
    else [s[0]] + InsertRanked(m, x, s[1..])
  }

  function Rank(m: Metric, s: seq<Entry>): (r: seq<Entry>)
  {
    if s == [] then [] else InsertRanked(m, s[0], Rank(m, s[1..]))
  }

  lemma {:induction false} InsertRankedKeeps(m: Metric, x: Entry, s: seq<Entry>)
    ensures multiset(InsertRanked(m, x, s)) == multiset(s) + multiset{x}
  {
    hide NoWorse;
    if s != [] && !NoWorse(m, x.score, s[0].score) {
      var t := InsertRanked(m, x, s[1..]);
      assert InsertRanked(m, x, s) == [s[0]] + t;
      InsertRankedKeeps(m, x, s[1..]);
      assert s == [s[0]] + s[1..];
      hide InsertRanked;
      ConsMultiset(s[0], t);
      ConsMultiset(s[0], s[1..]);
    } else {
      ConsMultiset(x, s);
    }
  }

  lemma ConsMultiset(x: Entry, t: seq<Entry>)
    ensures multiset([x] + t) == multiset{x} + multiset(t)
  {
  }

  lemma {:induction false} InsertRankedMember(m: Metric, x: Entry, s: seq<Entry>, y: Entry)
    requires y in InsertRanked(m, x, s)
    ensures y == x || y in s
  {
    InsertRankedKeeps(m, x, s);
    assert y in multiset(InsertRanked(m, x, s));
  }

  lemma {:induction false} InsertRankedSorts(m: Metric, x: Entry, s: seq<Entry>)
    requires Ranked(m, s)
    ensures Ranked(m, InsertRanked(m, x, s))
  {
    if s != [] && !NoWorse(m, x.score, s[0].score) {
      InsertRankedSorts(m, x, s[1..]);
      var t := InsertRanked(m, x, s[1..]);
      forall j | 0 <= j < |t|
        ensures NoWorse(m, s[0].score, t[j].score)
      {
        InsertRankedMember(m, x, s[1..], t[j]);
      }
      hide InsertRanked;
      RankedCons(m, s[0], t);
    }
  }

  lemma RankedCons(m: Metric, x: Entry, t: seq<Entry>)
    requires Ranked(m, t) && forall j :: 0 <= j < |t| ==> NoWorse(m, x.score, t[j].score)
    ensures Ranked(m, [x] + t)
  {
    hide NoWorse;
  }

  lemma {:induction false} RankSorts(m: Metric, s: seq<Entry>)
    ensures Ranked(m, Rank(m, s)) && multiset(Rank(m, s)) == multiset(s)
  {
    if s != [] {
      RankSorts(m, s[1..]);
      InsertRankedKeeps(m, s[0], Rank(m, s[1..]));
      InsertRankedSorts(m, s[0], Rank(m, s[1..]));
      assert s == [s[0]] + s[1..];
    }
  }

  /** A score row after numpy `argsort` or `argpartition` plus `argsort`: some ranking of it.
      Callers learn nothing about the order of equal scores. */
  method Argsort(m: Metric, row: seq<Entry>) returns (r: seq<Entry>)
    ensures Ranked(m, r) && multiset(r) == multiset(row)
    ensures |r| == |row|
  {
    RankSorts(m, row);
    r := Rank(m, row);
    assert |multiset(r)| == |multiset(row)|;
  }

  // -------------------------------------------------------- chunk and merge

  /** The first k of a ranking are a top-k of what was ranked. */
  lemma RankedPrefixIsTopK(m: Metric, s: seq<Entry>, k: nat)
    requires Ranked(m, s)
    ensures IsTopK(m, s[..Min(k, |s|)], multiset(s), k)
  {
    var n := Min(k, |s|);
    PrefixParts(s, n);
    RankedPrefix(m, s, n);
    hide Ranked, NoWorse;
    var best := s[..n];
    forall i, d | 0 <= i < |best| && d in multiset(s) - multiset(best)
      ensures NoWorse(m, best[i].score, d.score)
    {
      assert d in multiset(s[n..]);
      KeptBeatsDropped(m, s, n, i, d);
    }
  }

  lemma KeptBeatsDropped(m: Metric, s: seq<Entry>, n: nat, i: nat, d: Entry)
    requires Ranked(m, s) && i < n <= |s| && d in multiset(s[n..])
    ensures NoWorse(m, s[i].score, d.score)
  {
    hide NoWorse;
    assert d in s[n..];
    var q :| 0 <= q < |s[n..]| && s[n..][q] == d;
    assert s[n + q] == d;
  }

  lemma RankedPrefix(m: Metric, s: seq<Entry>, n: nat)
    requires Ranked(m, s) && n <= |s|
    ensures Ranked(m, s[..n])
  {
  }

  lemma PrefixParts(s: seq<Entry>, n: nat)
    requires n <= |s|
    ensures multiset(s[..n]) <= multiset(s) && |multiset(s)| == |s|
    ensures multiset(s) - multiset(s[..n]) == multiset(s[n..])
  {
    assert s == s[..n] + s[n..];
  }

  /** The ranking of all candidates is their top-k for a k that takes them all. */
  lemma WholeRanking(m: Metric, all: seq<Entry>) returns (best: seq<Entry>)
    ensures IsTopK(m, best, multiset(all), |all|)
    ensures |best| == |all| && forall e :: e in all ==> e in best
  {
    best := Rank(m, all);
    RankSorts(m, all);
    SameMembers(best, all);
    RankedPrefixIsTopK(m, best, |all|);
    assert best[..|all|] == best;
    forall e | e in all
      ensures e in best
    {
      assert e in multiset(best);
    }
  }

  /** Python `topk_indices` followed by the two `take_along_axis` calls: the chunk's winners. */
  method TopkOfChunk(m: Metric, row: seq<Entry>, k: nat) returns (r: seq<Entry>)
    ensures IsTopK(m, r, multiset(row), k)
  {
    if |row| == 0 {
      r := [];
    } else {
      var ranked := Argsort(m, row);
      RankedPrefixIsTopK(m, ranked, k);
      r := ranked[..Min(k, |row|)];
    }
  }

  /** Winners of `a` and winners of `b` suffice to find the winners of both. */
  lemma MergedWinners(
      m: Metric, a: seq<Entry>, A: multiset<Entry>, b: seq<Entry>, B: multiset<Entry>, s: seq<Entry>, k: nat)
    requires IsTopK(m, a, A, k) && IsTopK(m, b, B, k)
    requires Ranked(m, s) && multiset(s) == multiset(a + b)
    ensures IsTopK(m, s[..Min(k, |s|)], A + B, k)
  {
    var n := Min(k, |s|);
    var out := s[..n];
    MergedSizes(a, A, b, B, s, k);
    RankedPrefixIsTopK(m, s, k);
    assert multiset(a) <= A && multiset(b) <= B;
    forall i, d | 0 <= i < n && d in A + B - multiset(out)
      ensures NoWorse(m, out[i].score, d.score)
    {
      if d in multiset(s) - multiset(out) {
        assert NoWorse(m, out[i].score, d.score);
      } else if d in A - multiset(a) {
        DroppedStaysDropped(m, a, A, b, s, k, i, d);
      } else {
        assert multiset(s) == multiset(b + a);
        DroppedStaysDropped(m, b, B, a, s, k, i, d);
      }
    }
    assert multiset(out) <= A + B;
  }

  lemma MergedSizes(a: seq<Entry>, A: multiset<Entry>, b: seq<Entry>, B: multiset<Entry>, s: seq<Entry>, k: nat)
    requires multiset(a) <= A && multiset(b) <= B && multiset(s) == multiset(a + b)
    requires |a| == Min(k, |A|) && |b| == Min(k, |B|)
    ensures multiset(a + b) == multiset(a) + multiset(b) && |s| == |a| + |b|
    ensures Min(k, |s|) == Min(k, |A + B|)
  {
    assert |multiset(s)| == |multiset(a + b)|;
  }

  /** What one side already dropped cannot beat anything kept after the merge: that side
      kept k entries at least as good, and they fill the merged places. */
  lemma DroppedStaysDropped(
      m: Metric, a: seq<Entry>, A: multiset<Entry>, b: seq<Entry>, s: seq<Entry>, k: nat, i: nat, d: Entry)
    requires IsTopK(m, a, A, k) && Ranked(m, s) && multiset(s) == multiset(a + b)
    requires i < Min(k, |s|) && d in A - multiset(a)
    ensures NoWorse(m, s[i].score, d.score)
  {
    assert A == multiset(a) + (A - multiset(a));
    assert |A| > |a| && |a| == k;
    if !NoWorse(m, s[i].score, d.score) {
      assert multiset(a + b) == multiset(a) + multiset(b);
      forall x | x in multiset(a)
        ensures !NoWorse(m, s[i].score, x.score)
      {
        var p :| 0 <= p < |a| && a[p] == x;
        assert NoWorse(m, x.score, d.score);
      }
      assert |multiset(a)| == k;
      StrictlyBetterComeFirst(m, s, i, multiset(a));
    }
  }

  /** Python `merge_topk`, one query row: rank both winner lists together and cut to k. */
  method MergeTopk(m: Metric, current: seq<Entry>, candidates: seq<Entry>, k: nat,
                   ghost A: multiset<Entry>, ghost B: multiset<Entry>) returns (r: seq<Entry>)
    requires IsTopK(m, current, A, k) && IsTopK(m, candidates, B, k)
    ensures IsTopK(m, r, A + B, k)
  {
    if |candidates| == 0 {
      r := current;
      if k == 0 {
        assert current == [];
      } else {
        assert |B| == 0 && B == multiset{};
        assert A + B == A;
      }
    } else {
      var combined := current + candidates;
      var ranked := Argsort(m, combined);
      MergedWinners(m, current, A, candidates, B, ranked, k);
      r := ranked[..Min(k, |ranked|)];
    }
  }

  /** Python `update_topk_with_candidates`, one query row: chunk-local winners, then merge. */
  method UpdateTopk(m: Metric, current: seq<Entry>, chunk: seq<Entry>, k: nat, ghost A: multiset<Entry>)
    returns (r: seq<Entry>)
    requires IsTopK(m, current, A, k)
    ensures IsTopK(m, r, A + multiset(chunk), k)
  {
    if |chunk| == 0 {
      r := current;
      assert A + multiset(chunk) == A;
    } else {
      var top := TopkOfChunk(m, chunk, k);
      r := MergeTopk(m, current, top, k, A, multiset(chunk));
    }
  }

  // ------------------------------------------------- padding the fixed width

  /** The k fillers of a fresh running state. */
  function Pads(k: nat): (s: seq<Entry>)
    ensures |s| == k
  {
    seq(k, _ => PAD)
  }

  /** A fresh state is the top-k of no candidates, seen through its fillers. */
  lemma FreshState(m: Metric, k: nat)
    ensures IsTopK(m, Pads(k), multiset(Pads(k)), k)
  {
    assert |multiset(Pads(k))| == k;
    assert multiset(Pads(k)) - multiset(Pads(k)) == multiset{};
  }

  ghost predicate AllScored(c: multiset<Entry>)
  {
    forall e :: e in c ==> e.score.Real?
  }

  /** Fillers are worse than every candidate, so they only ever fill the tail: dropping them
      leaves a top-k of the candidates themselves. */
  lemma {:induction false} WithoutPads(m: Metric, r: seq<Entry>, c: multiset<Entry>, k: nat) returns (n: nat)
    requires AllScored(c) && IsTopK(m, r, c + multiset(Pads(k)), k)
    ensures n <= |r| == k
    ensures forall i :: 0 <= i < n ==> r[i].score.Real?
    ensures forall i :: n <= i < k ==> r[i] == PAD
    ensures IsTopK(m, r[..n], c, k)
  {
    var pads := multiset(Pads(k));
    assert |pads| == k;
    assert |c + pads| == |c| + k;
    n := 0;
    while n < |r| && r[n].score.Real?
      invariant n <= |r|
      invariant forall i :: 0 <= i < n ==> r[i].score.Real?
    {
      n := n + 1;
    }
    forall i | n <= i < k
      ensures r[i] == PAD
    {
      assert n < i ==> NoWorse(m, r[n].score, r[i].score);
      assert r[i] in multiset(r);
      assert r[i] in c + pads;
    }
    PrefixOfPadded(m, r, n, c, k);
  }

  lemma PadCounts(e: Entry, k: nat)
    requires e != PAD
    ensures multiset(Pads(k))[e] == 0
  {
  }

  /** Away from the filler, a padded state counts exactly its scored prefix. */
  lemma PaddedCounts(r: seq<Entry>, n: nat, e: Entry)
    requires n <= |r| && forall i :: n <= i < |r| ==> r[i] == PAD
    requires e != PAD
    ensures multiset(r[..n])[e] == multiset(r)[e]
  {
    assert r == r[..n] + r[n..];
    assert r[n..] == Pads(|r| - n);
    PadCounts(e, |r| - n);
  }

  lemma PrefixFromCandidates(r: seq<Entry>, n: nat, c: multiset<Entry>, k: nat)
    requires AllScored(c) && multiset(r) <= c + multiset(Pads(k)) && n <= |r|
    requires forall i :: 0 <= i < n ==> r[i].score.Real?
    requires forall i :: n <= i < |r| ==> r[i] == PAD
    ensures multiset(r[..n]) <= c
    ensures forall d :: d in c - multiset(r[..n]) ==> d in c + multiset(Pads(k)) - multiset(r)
  {
    forall e | e in multiset(r[..n])
      ensures multiset(r[..n])[e] <= c[e]
    {
      var p :| 0 <= p < n && r[..n][p] == e;
      PadCounts(e, k);
      PaddedCounts(r, n, e);
    }
    forall d | d in c - multiset(r[..n])
      ensures d in c + multiset(Pads(k)) - multiset(r)
    {
      PaddedCounts(r, n, d);
    }
  }

  /** A kept filler means that no candidate was left out. */
  lemma FillerMeansAllKept(m: Metric, r: seq<Entry>, n: nat, c: multiset<Entry>, pads: multiset<Entry>)
    requires AllScored(c) && n < |r| && r[n] == PAD
    requires forall i, d :: 0 <= i < |r| && d in c + pads - multiset(r) ==> NoWorse(m, r[i].score, d.score)
    requires multiset(r[..n]) <= c
    requires forall d :: d in c - multiset(r[..n]) ==> d in c + pads - multiset(r)
    ensures c == multiset(r[..n])
  {
    forall d | d in c - multiset(r[..n])
      ensures NoWorse(m, r[n].score, d.score) && d.score.Real?
    {
      assert d in c + pads - multiset(r);
    }
    assert c - multiset(r[..n]) == multiset{};
    assert c == multiset(r[..n]) + (c - multiset(r[..n]));
  }

  lemma PrefixOfPadded(m: Metric, r: seq<Entry>, n: nat, c: multiset<Entry>, k: nat)
    requires AllScored(c) && IsTopK(m, r, c + multiset(Pads(k)), k)
    requires n <= |r| == k
    requires forall i :: 0 <= i < n ==> r[i].score.Real?
    requires forall i :: n <= i < k ==> r[i] == PAD
    ensures IsTopK(m, r[..n], c, k)
  {
    RankedPrefix(m, r, n);
    PrefixFromCandidates(r, n, c, k);
    hide NoWorse, Ranked, Pads;
    if n < k {
      FillerMeansAllKept(m, r, n, c, multiset(Pads(k)));
    }
    SubmultisetSize(multiset(r[..n]), c);
    assert |multiset(r[..n])| == n == Min(k, |c|);
    hide AllScored, Min;
    forall i, d | 0 <= i < n && d in c - multiset(r[..n])
      ensures NoWorse(m, r[..n][i].score, d.score)
    {
      assert d in c + multiset(Pads(k)) - multiset(r);
      assert r[..n][i] == r[i];
    }
  }

  /** Python `topk_state_to_lists`: entries whose id is not negative. */
  function ToLists(r: seq<Entry>): seq<Entry>
  {
    if r == [] then []
    else (if r[0].id >= 0 then [r[0]] else []) + ToLists(r[1..])
  }

  lemma {:induction false} ToListsPrefix(r: seq<Entry>, n: nat)
    requires n <= |r|
    requires forall i :: 0 <= i < n ==> r[i].id >= 0
    requires forall i :: n <= i < |r| ==> r[i].id < 0
    ensures ToLists(r) == r[..n]
  {
    if r != [] {
      if n > 0 {
        ToListsPrefix(r[1..], n - 1);
        assert r[..n] == [r[0]] + r[1..][..n - 1];
      } else {
        ToListsPrefix(r[1..], 0);
      }
    }
  }

  /** The filter shortens a list exactly when it holds a negative id. */
  lemma {:induction false} ToListsDrops(r: seq<Entry>)
    ensures |ToLists(r)| <= |r|
    ensures |ToLists(r)| == |r| <==> forall i :: 0 <= i < |r| ==> r[i].id >= 0
    ensures |ToLists(r)| == |r| ==> ToLists(r) == r
    ensures forall e :: e in ToLists(r) ==> e in r && e.id >= 0
  {
    if r != [] {
      ToListsDrops(r[1..]);
      assert r == [r[0]] + r[1..];
    }
  }

  lemma {:induction false} ToListsDropsPads(r: seq<Entry>, n: nat)
    requires n <= |r| && forall i :: n <= i < |r| ==> r[i] == PAD
    ensures ToLists(r) == ToLists(r[..n])
  {
    if n == 0 {
      ToListsPrefix(r, 0);
      assert r[..0] == [];
    } else {
      ToListsDropsPads(r[1..], n - 1);
      assert r[..n][1..] == r[1..][..n - 1];
    }
  }

  /** Whatever the ids, a running state reads back as some top-k of the candidates with the
      negative ids left out. */
  lemma ReadBackOfRunning(m: Metric, r: seq<Entry>, c: multiset<Entry>, k: nat) returns (best: seq<Entry>)
    requires AllScored(c) && IsTopK(m, r, c + multiset(Pads(k)), k)
    ensures IsTopK(m, best, c, k) && ToLists(r) == ToLists(best)
  {
    var n := WithoutPads(m, r, c, k);
    best := r[..n];
    ToListsDropsPads(r, n);
  }

  /** Reading a running state back gives exactly a top-k of the candidates, for every
      scoring of them, precisely when no kept candidate has a negative id: `-1` marks an
      unused place, and the filter cannot tell the two apart. */
  lemma ToListsExactIff(m: Metric, r: seq<Entry>, c: multiset<Entry>, k: nat)
    requires AllScored(c) && IsTopK(m, r, c + multiset(Pads(k)), k)
    ensures (forall e :: e in r && e.score.Real? ==> e.id >= 0) <==> IsTopK(m, ToLists(r), c, k)
  {
    var n := WithoutPads(m, r, c, k);
    if forall e :: e in r && e.score.Real? ==> e.id >= 0 {
      forall i | 0 <= i < n
        ensures r[i].id >= 0
      {
        assert r[i] in r;
      }
      ToListsPrefix(r, n);
    }
    if e :| e in r && e.score.Real? && e.id < 0 {
      DroppedEntryShortens(r, n, e);
    }
  }

  lemma {:induction false} DroppedEntryShortens(r: seq<Entry>, n: nat, e: Entry)
    requires n <= |r| && e in r && e.score.Real? && e.id < 0
    requires forall i :: n <= i < |r| ==> r[i] == PAD
    ensures |ToLists(r)| < n
  {
    var p :| 0 <= p < |r| && r[p] == e;
    assert p < n;
    if r[0].id < 0 {
      ToListsLength(r[1..], n - 1);
    } else {
      assert r[1..][p - 1] == e;
      DroppedEntryShortens(r[1..], n - 1, e);
    }
  }

  lemma {:induction false} ToListsLength(r: seq<Entry>, n: nat)
    requires n <= |r| && forall i :: n <= i < |r| ==> r[i] == PAD
    ensures |ToLists(r)| <= n
  {
    if r != [] {
      ToListsLength(r[1..], if n > 0 then n - 1 else 0);
    }
  }

  /** A single candidate with id -5 is read back as no result at all. */
  lemma NegativeIdIsLost()
    ensures var e := Entry(Real(0.5), -5);
      && IsTopK(Dot, [e], multiset{e} + multiset(Pads(1)), 1)
      && ToLists([e]) == []
      && !IsTopK(Dot, ToLists([e]), multiset{e}, 1)
  {
    var e := Entry(Real(0.5), -5);
    assert Pads(1) == [PAD];
    assert multiset(Pads(1)) == multiset{PAD};
    assert ToLists([e][1..]) == [];
    assert multiset{e} + multiset{PAD} - multiset([e]) == multiset{PAD};
  }
}
