/** The in-memory backend of the mixed workload's dry run: it scores every vector, sorts the
    pairs in place and keeps the first k. */
module DryRunSearch {
  import opened Basics
  import opened TopK

  datatype Pair = Pair(id: int, score: real)

  /** Larger scores first, smaller ids first among equal scores. */
  predicate Before(a: Pair, b: Pair)
  {
    a.score > b.score || (a.score == b.score && a.id < b.id)
  }

  ghost predicate Ordered(s: seq<Pair>)
  {
    forall i, j :: 0 <= i < j < |s| ==> !Before(s[j], s[i])
  }

  function InsertPair(s: seq<Pair>, x: Pair): seq<Pair>
  {
    if s == [] || !Before(x, s[|s| - 1]) then s + [x] else InsertPair(s[..|s| - 1], x) + [s[|s| - 1]]
  }

  function SortPairs(s: seq<Pair>): seq<Pair>
  {
    if s == [] then [] else InsertPair(SortPairs(s[..|s| - 1]), s[|s| - 1])
  }

  lemma {:induction false} InsertKeepsPairs(s: seq<Pair>, x: Pair)
    ensures multiset(InsertPair(s, x)) == multiset(s) + multiset{x}
  {
    hide Before;
    if s != [] {
      assert s == s[..|s| - 1] + [s[|s| - 1]];
      InsertKeepsPairs(s[..|s| - 1], x);
    }
  }

  lemma {:induction false} SortKeepsPairs(s: seq<Pair>)
    ensures multiset(SortPairs(s)) == multiset(s)
  {
    hide InsertPair;
    if s != [] {
      assert s == s[..|s| - 1] + [s[|s| - 1]];
      SortKeepsPairs(s[..|s| - 1]);
      InsertKeepsPairs(SortPairs(s[..|s| - 1]), s[|s| - 1]);
    }
  }

  lemma {:induction false} InsertOrdered(s: seq<Pair>, x: Pair)
    requires Ordered(s)
    ensures Ordered(InsertPair(s, x))
    ensures forall i :: 0 <= i < |InsertPair(s, x)| ==>
      !Before(if s == [] || !Before(x, s[|s| - 1]) then x else s[|s| - 1], InsertPair(s, x)[i])
  {
    if s != [] && Before(x, s[|s| - 1]) {
      InsertOrdered(s[..|s| - 1], x);
    }
  }

  lemma {:induction false} SortOrders(s: seq<Pair>)
    ensures Ordered(SortPairs(s))
  {
    if s != [] {
      SortOrders(s[..|s| - 1]);
      InsertOrdered(SortPairs(s[..|s| - 1]), s[|s| - 1]);
    }
  }

  /** There is one ordered arrangement only, so the map's iteration order does not show. */
  lemma {:induction false} OrderedIsUnique(a: seq<Pair>, b: seq<Pair>)
    requires multiset(a) == multiset(b) && Ordered(a) && Ordered(b)
    ensures a == b
  {
    SameMembers(a, b);
    if a != [] {
      var n := |a| - 1;
      LastsAgree(a, b);
      DropLast(a, b);
      OrderedFront(a);
      OrderedFront(b);
      hide Ordered;
      OrderedIsUnique(a[..n], b[..n]);
      assert a == a[..n] + [a[n]] && b == b[..n] + [b[n]];
    }
  }

  lemma OrderedFront(s: seq<Pair>)
    requires Ordered(s) && s != []
    ensures Ordered(s[..|s| - 1])
  {
    hide Before;
  }

  lemma LastsAgree(a: seq<Pair>, b: seq<Pair>)
    requires Ordered(a) && Ordered(b) && |a| == |b| > 0 && a[|a| - 1] in b && b[|b| - 1] in a
    ensures a[|a| - 1] == b[|b| - 1]
  {
    var n := |a| - 1;
    var i :| 0 <= i < |a| && a[i] == b[n];
    var j :| 0 <= j < |b| && b[j] == a[n];
    assert i == n || !Before(a[n], a[i]);
    assert j == n || !Before(b[n], b[j]);
  }

  lemma SortIgnoresOrder(a: seq<Pair>, b: seq<Pair>)
    requires multiset(a) == multiset(b)
    ensures SortPairs(a) == SortPairs(b)
  {
    SortOrders(a);
    SortOrders(b);
    SortKeepsPairs(a);
    SortKeepsPairs(b);
    OrderedIsUnique(SortPairs(a), SortPairs(b));
  }

  lemma {:induction false} InsertStops(s: seq<Pair>, x: Pair, j: nat)
    requires j <= |s| && (j == 0 || !Before(x, s[j - 1]))
    requires forall k :: j <= k < |s| ==> Before(x, s[k])
    ensures InsertPair(s, x) == s[..j] + [x] + s[j..]
  {
    hide Before;
    var n := |s| - 1;
    if j == |s| {
      assert s[..j] == s && s[j..] == [];
    } else {
      assert Before(x, s[n]);
      InsertStops(s[..n], x, j);
      assert s[..n][..j] == s[..j];
      assert s[..n][j..] + [s[n]] == s[j..];
    }
  }

  /** `sortScored`: insertion sort by swaps. */
  method SortScored(a: array<Pair>)
    modifies a
    ensures a[..] == SortPairs(old(a[..]))
  {
    hide InsertPair;
    ghost var was := a[..];
    if a.Length > 0 {
      assert was[..1] == [was[0]];
      SortOne(was[0]);
    }
    var i := 1;
    while i < a.Length
      invariant a.Length > 0 ==> 1 <= i <= a.Length
      invariant a.Length > 0 ==> a[..i] == SortPairs(was[..i])
      invariant forall k :: i <= k < a.Length ==> a[k] == was[k]
    {
      assert was[..i + 1][..i] == was[..i];
      Sink(a, i, SortPairs(was[..i]));
      i := i + 1;
    }
    assert was[..a.Length] == was && a[..a.Length] == a[..];
  }

  lemma SortOne(x: Pair)
    ensures SortPairs([x]) == [x]
  {
    assert [x][..0] == [];
    assert SortPairs([]) == [];
  }

  /** The inner loop: the pair at `i` sinks into the sorted pairs before it. */
  method Sink(a: array<Pair>, i: nat, ghost sorted: seq<Pair>)
    requires i < a.Length && a[..i] == sorted
    modifies a
    ensures a[..i + 1] == InsertPair(sorted, old(a[i]))
    ensures forall k :: i < k < a.Length ==> a[k] == old(a[k])
  {
    hide Before, InsertPair;
    ghost var x := a[i];
    var j := i;
    while j > 0 && Before(a[j], a[j - 1])
      invariant 0 <= j <= i
      invariant a[j] == x
      invariant forall k :: 0 <= k < j ==> a[k] == sorted[k]
      invariant forall k :: j < k <= i ==> a[k] == sorted[k - 1]
      invariant forall k :: j <= k < i ==> Before(x, sorted[k])
      invariant forall k :: i < k < a.Length ==> a[k] == old(a[k])
    {
      a[j], a[j - 1] := a[j - 1], a[j];
      j := j - 1;
    }
    InsertStops(sorted, x, j);
    assert a[..i + 1] == sorted[..j] + [x] + sorted[j..];
  }

  function EntryOf(p: Pair): Entry
  {
    Entry(Real(p.score), p.id)
  }

  function Entries(s: seq<Pair>): (r: seq<Entry>)
    ensures |r| == |s|
  {
    seq(|s|, i requires 0 <= i < |s| => EntryOf(s[i]))
  }

  /** A pair may stand before another: larger scores first, smaller ids among equal scores. */
  ghost predicate Stands(p: Pair, q: Pair)
  {
    p.score > q.score || (p.score == q.score && p.id <= q.id)
  }

  /** The kept pairs stand in order, and before every pair that was not kept. */
  ghost predicate BestPairs(pairs: seq<Pair>, best: seq<Pair>, k: nat)
  {
    && |best| == (if k < |pairs| then k else |pairs|) && multiset(best) <= multiset(pairs)
    && (forall i, j :: 0 <= i < j < |best| ==> Stands(best[i], best[j]))
    && (forall i, p :: 0 <= i < |best| && p in multiset(pairs) - multiset(best) ==> Stands(best[i], p))
  }

  lemma OrderedStands(s: seq<Pair>, i: nat, j: nat)
    requires Ordered(s) && i < j < |s|
    ensures Stands(s[i], s[j])
  {
    assert !Before(s[j], s[i]);
  }

  lemma KeptAndLeft(pairs: seq<Pair>, sorted: seq<Pair>, n: nat)
    requires multiset(sorted) == multiset(pairs) && n <= |sorted|
    ensures multiset(sorted[..n]) <= multiset(pairs)
    ensures multiset(pairs) - multiset(sorted[..n]) == multiset(sorted[n..])
  {
    assert sorted == sorted[..n] + sorted[n..];
  }

  lemma FirstAreBest(pairs: seq<Pair>, sorted: seq<Pair>, k: nat)
    requires Ordered(sorted) && multiset(sorted) == multiset(pairs)
    ensures BestPairs(pairs, sorted[..Min(k, |sorted|)], k)
  {
    SameMembers(sorted, pairs);
    var n := Min(k, |sorted|);
    KeptAndLeft(pairs, sorted, n);
    hide Ordered, Stands;
    var best, rest := sorted[..n], sorted[n..];
    forall i, j | 0 <= i < j < n
      ensures Stands(best[i], best[j])
    {
      OrderedStands(sorted, i, j);
    }
    forall i, p | 0 <= i < n && p in multiset(rest)
      ensures Stands(best[i], p)
    {
      var j :| 0 <= j < |rest| && rest[j] == p;
      OrderedStands(sorted, i, n + j);
    }
  }

  /** One query of `Search`, the pairs being the stored vectors' in whatever order the map
      gives them. */
  method Search(pairs: seq<Pair>, k: nat) returns (best: seq<Pair>)
    ensures best == SortPairs(pairs)[..Min(k, |SortPairs(pairs)|)]
    ensures BestPairs(pairs, best, k)
  {
    var rows := new Pair[|pairs|](i requires 0 <= i < |pairs| => pairs[i]);
    assert rows[..] == pairs;
    SortScored(rows);
    SortKeepsPairs(pairs);
    SameMembers(SortPairs(pairs), pairs);
    best := if k < rows.Length then rows[..k] else rows[..];
    SortOrders(pairs);
    FirstAreBest(pairs, SortPairs(pairs), k);
  }

  lemma {:induction false} EntriesCount(s: seq<Pair>, e: Entry)
    ensures multiset(Entries(s))[e] == if e.score.Real? then multiset(s)[Pair(e.id, e.score.value)] else 0
  {
    if s != [] {
      var n := |s| - 1;
      EntriesCount(s[..n], e);
      assert s == s[..n] + [s[n]];
      assert Entries(s) == Entries(s[..n]) + [EntryOf(s[n])];
    }
  }

  /** The dry run's answer is an exact top-k of everything stored, by dot product, and does
      not depend on the order the map was walked in. */
  lemma SearchIsTopK(pairs: seq<Pair>, k: nat)
    ensures IsTopK(Dot, Entries(SortPairs(pairs))[..Min(k, |SortPairs(pairs)|)], multiset(Entries(pairs)), k)
  {
    var sorted := SortPairs(pairs);
    SortKeepsPairs(pairs);
    SameEntries(sorted, pairs);
    SortedIsRanked(pairs);
    hide *;
    RankedPrefixIsTopK(Dot, Entries(sorted), k);
  }

  lemma SortedIsRanked(pairs: seq<Pair>)
    ensures Ranked(Dot, Entries(SortPairs(pairs)))
  {
    SortOrders(pairs);
    hide SortPairs;
  }

  lemma SameEntries(a: seq<Pair>, b: seq<Pair>)
    requires multiset(a) == multiset(b)
    ensures multiset(Entries(a)) == multiset(Entries(b))
  {
    hide Entries;
    forall e
      ensures multiset(Entries(a))[e] == multiset(Entries(b))[e]
    {
      EntriesCount(a, e);
      EntriesCount(b, e);
    }
  }
}
