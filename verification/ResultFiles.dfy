/** Query-result files: which client writes which rows, under which name, and how the recall
    tool's numeric order and the Rust client's chunk merge put the query matrix back together. */
module ResultFiles {
  import opened RowPartition
  import opened Basics
  import opened Decimal

  // ------------------------------------------------------------------- names

  const PREFIX := "query_result_ids"
  const SUFFIX := ".npy"

  /** The name the Go clients give a result file. */
  function FileName(worker: nat, client: nat): string
  {
    PREFIX + "_w" + Print(worker) + "_c" + Print(client) + SUFFIX
  }

  datatype Key = Key(worker: nat, client: nat, name: string)

  predicate EndsWith(s: string, t: string)
  {
    |t| <= |s| && s[|s| - |t|..] == t
  }

  /** What `_w(\d+)_c(\d+)\.npy$` finds, and (0, 0) when it finds nothing; then the name. */
  function SortKey(name: string): Key
  {
    if !EndsWith(name, SUFFIX) then Key(0, 0, name)
    else
      var s := name[..|name| - |SUFFIX|];
      var k := DigitTail(s);
      if k == |s| || !EndsWith(s[..k], "_c") then Key(0, 0, name)
      else
        var t := s[..k - 2];
        var j := DigitTail(t);
        if j == |t| || !EndsWith(t[..j], "_w") then Key(0, 0, name)
        else Key(Value(t[j..]), Value(s[k..]), name)
  }

  lemma SuffixOf(a: string, b: string)
    ensures EndsWith(a + b, b) && (a + b)[..|a|] == a && (a + b)[|a|..] == b
  {
  }

  /** The numbers printed into a name are the ones the recall tool sorts by. */
  lemma NameKeepsKey(worker: nat, client: nat)
    ensures SortKey(FileName(worker, client)) == Key(worker, client, FileName(worker, client))
  {
    NumberedKey(FileName(worker, client), PREFIX, Print(worker), Print(client));
    PrintedValue(worker);
    PrintedValue(client);
  }

  /** Does the name end in `_w`, digits, `_c`, digits and the suffix? */
  ghost predicate Numbered(name: string, head: string, w: string, c: string)
  {
    && w != "" && c != "" && AllDigits(w) && AllDigits(c)
    && name == head + "_w" + w + "_c" + c + SUFFIX
  }

  /** Such a name is sorted by the values of its digits. */
  lemma NumberedKey(name: string, head: string, w: string, c: string)
    requires Numbered(name, head, w, c)
    ensures SortKey(name) == Key(Value(w), Value(c), name)
  {
    var t := head + "_w" + w;
    var s := t + "_c" + c;
    SuffixOf(s, SUFFIX);
    CutNumber(t, "_c", c);
    CutNumber(head, "_w", w);
    hide SortKey, EndsWith, DigitTail, Value, AllDigits, Numbered, IsDigit;
    KeyBySteps(s + SUFFIX, s, DigitTail(s), t, DigitTail(t));
  }

  lemma KeyBySteps(name: string, s: string, k: nat, t: string, j: nat)
    requires EndsWith(name, SUFFIX) && s == name[..|name| - |SUFFIX|]
    requires k == DigitTail(s) < |s| && EndsWith(s[..k], "_c") && t == s[..k - 2]
    requires j == DigitTail(t) < |t| && EndsWith(t[..j], "_w")
    ensures SortKey(name) == Key(Value(t[j..]), Value(s[k..]), name)
  {
    hide DigitTail, Value, AllDigits, EndsWith;
  }

  /** The digits at the end, and what is in front of them. */
  lemma CutNumber(head: string, mark: string, digits: string)
    requires |mark| == 2 && !IsDigit(mark[1]) && digits != "" && AllDigits(digits)
    ensures
      var s := head + mark + digits;
      var k := DigitTail(s);
      2 <= k < |s| && EndsWith(s[..k], mark) && s[..k - 2] == head && s[k..] == digits
  {
    var s := head + mark + digits;
    var k := |head| + 2;
    assert s[k..] == digits && s[k - 1] == mark[1];
    DigitTailUnique(s, k);
    SuffixOf(head, mark);
    assert s[..k] == head + mark;
  }

  /** Any other name is sorted by two zeros. */
  lemma NumberedOrZero(name: string) returns (head: string, w: string, c: string)
    ensures Numbered(name, head, w, c) || SortKey(name) == Key(0, 0, name)
  {
    head, w, c := "", "", "";
    if EndsWith(name, SUFFIX) {
      var s := name[..|name| - |SUFFIX|];
      var k := DigitTail(s);
      if k < |s| && EndsWith(s[..k], "_c") {
        var t := s[..k - 2];
        var j := DigitTail(t);
        if j < |t| && EndsWith(t[..j], "_w") {
          Reassembled(name, s, k, t, j);
          head, w, c := t[..j - 2], t[j..], s[k..];
        }
      }
    }
  }

  lemma Reassembled(name: string, s: string, k: nat, t: string, j: nat)
    requires EndsWith(name, SUFFIX) && s == name[..|name| - |SUFFIX|]
    requires k <= |s| && EndsWith(s[..k], "_c") && t == s[..k - 2]
    requires j <= |t| && EndsWith(t[..j], "_w")
    ensures name == t[..j - 2] + "_w" + t[j..] + "_c" + s[k..] + SUFFIX
  {
    assert name == s + SUFFIX;
    assert s[..k] == t + "_c";
    assert s == t + "_c" + s[k..];
    assert t[..j] == t[..j - 2] + "_w";
    assert t == t[..j - 2] + "_w" + t[j..];
  }

  // ------------------------------------------------------------------ sorting

  datatype ResultFile<T> = ResultFile(name: string, rows: seq<T>)

  /** The order of strings: by the first character in which they differ, a prefix before what it
      is a prefix of. */
  ghost predicate NameBefore(s: string, t: string)
  {
    exists k: nat :: BeforeAt(s, t, k)
  }

  ghost predicate BeforeAt(s: string, t: string, k: nat)
  {
    AgreeTo(s, t, k) && k < |t| && (k == |s| || s[k] < t[k])
  }

  ghost predicate AgreeTo(s: string, t: string, k: nat)
  {
    k <= |s| && k <= |t| && forall i :: 0 <= i < k ==> s[i] == t[i]
  }

  lemma {:induction false} FirstDifference(s: string, t: string, j: nat) returns (k: nat)
    requires AgreeTo(s, t, j)
    ensures AgreeTo(s, t, k) && (k == |s| || k == |t| || s[k] != t[k])
    decreases |s| - j
  {
    if j == |s| || j == |t| || s[j] != t[j] {
      k := j;
    } else {
      k := FirstDifference(s, t, j + 1);
    }
  }

  ghost predicate Before(a: Key, b: Key)
  {
    || a.worker < b.worker
    || (a.worker == b.worker && a.client < b.client)
    || (a.worker == b.worker && a.client == b.client && NameBefore(a.name, b.name))
  }

  /** Of two different names exactly one comes before the other. */
  lemma NamesCompare(s: string, t: string)
    ensures NameBefore(s, t) || NameBefore(t, s) || s == t
    ensures !(NameBefore(s, t) && NameBefore(t, s))
  {
    var k := FirstDifference(s, t, 0);
    assert BeforeAt(s, t, k) || BeforeAt(t, s, k) || s == t;
    forall i: nat, j: nat | BeforeAt(s, t, i)
      ensures !BeforeAt(t, s, j)
    {
    }
  }

  /** By worker, client and name. */
  ghost predicate Ordered<T>(files: seq<ResultFile<T>>)
  {
    forall i, j :: 0 <= i < j < |files| ==> !Before(SortKey(files[j].name), SortKey(files[i].name))
  }

  ghost predicate StrictlyOrdered<T>(files: seq<ResultFile<T>>)
  {
    forall i, j :: 0 <= i < j < |files| ==> Before(SortKey(files[i].name), SortKey(files[j].name))
  }

  /** There is only one way to order files of distinct numbers. */
  lemma {:induction false} OrderIsUnique<T>(a: seq<ResultFile<T>>, b: seq<ResultFile<T>>)
    requires multiset(a) == multiset(b) && StrictlyOrdered(a) && Ordered(b)
    ensures a == b
  {
    hide StrictlyOrdered, Ordered;
    SameMembers(a, b);
    if a != [] {
      var n := |a| - 1;
      LastsAgree(a, b);
      DropLast(a, b);
      Prefixes(a, b, n);
      OrderIsUnique(a[..n], b[..n]);
      assert a == a[..n] + [a[n]] && b == b[..n] + [b[n]];
    }
  }

  /** So the files of one directory, whose names all differ, have one order only. */
  lemma OneOrder<T>(a: seq<ResultFile<T>>, b: seq<ResultFile<T>>)
    requires multiset(a) == multiset(b) && Ordered(a) && Ordered(b)
    requires forall i, j :: 0 <= i < j < |a| ==> a[i].name != a[j].name
    ensures a == b
  {
    forall i, j | 0 <= i < j < |a|
      ensures Before(SortKey(a[i].name), SortKey(a[j].name))
    {
      NamesCompare(a[i].name, a[j].name);
      KeysCompare(a[i].name, a[j].name);
    }
    OrderIsUnique(a, b);
  }

  lemma KeysCompare(s: string, t: string)
    requires NameBefore(s, t) || NameBefore(t, s)
    ensures Before(SortKey(s), SortKey(t)) || Before(SortKey(t), SortKey(s))
  {
    assert SortKey(s).name == s && SortKey(t).name == t;
    hide NameBefore, SortKey;
  }

  lemma Prefixes<T>(a: seq<ResultFile<T>>, b: seq<ResultFile<T>>, n: nat)
    requires n <= |a| == |b| && StrictlyOrdered(a) && Ordered(b)
    ensures StrictlyOrdered(a[..n]) && Ordered(b[..n])
  {
    hide SortKey, Before;
  }

  lemma LastsAgree<T>(a: seq<ResultFile<T>>, b: seq<ResultFile<T>>)
    requires StrictlyOrdered(a) && Ordered(b) && |a| == |b| > 0
    requires a[|a| - 1] in b && b[|b| - 1] in a
    ensures a[|a| - 1] == b[|b| - 1]
  {
    hide SortKey, Before;
    var n := |a| - 1;
    var i :| 0 <= i < |a| && a[i] == b[n];
    var j :| 0 <= j < |b| && b[j] == a[n];
    assert j < n ==> !Before(SortKey(b[n].name), SortKey(b[j].name));
    assert i < n ==> Before(SortKey(a[i].name), SortKey(a[n].name));
  }

  // ---------------------------------------------------- what the clients write

  /** The rows of a client: one result for each query of its slice. */
  function RowsOf<T>(answers: seq<T>, rank: nat, l: Layout): seq<T>
    requires l.perWorker > 0
  {
    var r := RankRange(|answers|, rank, l);
    if r.start <= r.end <= |answers| then answers[r.start..r.end] else []
  }

  function FileOf<T>(answers: seq<T>, rank: nat, l: Layout): ResultFile<T>
    requires l.perWorker > 0
  {
    ResultFile(FileName(rank / l.perWorker, rank % l.perWorker), RowsOf(answers, rank, l))
  }

  /** The files of the clients below `k`; a client without rows writes none. */
  function Written<T>(answers: seq<T>, l: Layout, k: nat): seq<ResultFile<T>>
    requires l.perWorker > 0
  {
    if k == 0 then []
    else Written(answers, l, k - 1) + (if HasRows(|answers|, k - 1, l) then [FileOf(answers, k - 1, l)] else [])
  }

  function Concat<T>(files: seq<ResultFile<T>>): seq<T>
  {
    if files == [] then [] else Concat(files[..|files| - 1]) + files[|files| - 1].rows
  }

  lemma RankBounds(n: nat, l: Layout, k: nat)
    requires l.Valid() && k < l.total
    ensures RankRange(n, k, l).start <= RankRange(n, k, l).end <= n
    ensures k == 0 ==> RankRange(n, k, l).start == 0
    ensures k > 0 ==> RankRange(n, k - 1, l).end == RankRange(n, k, l).start
    ensures k + 1 == l.total ==> RankRange(n, k, l).end == n
  {
    var s := RankSlices(n, l);
    RankSlicesTile(n, l);
    TilesBounds(s, 0, n, k);
    assert s[k] == RankRange(n, k, l);
    if k > 0 {
      assert s[k - 1] == RankRange(n, k - 1, l);
    }
  }

  /** In rank order the files hold the query matrix from the first row on. */
  lemma {:induction false} WrittenRows<T>(answers: seq<T>, l: Layout, k: nat)
    requires l.Valid() && k <= l.total
    ensures k > 0 ==> RankRange(|answers|, k - 1, l).end <= |answers|
    ensures Concat(Written(answers, l, k)) == if k == 0 then [] else answers[..RankRange(|answers|, k - 1, l).end]
  {
    hide RankRange;
    if k > 0 {
      WrittenRows(answers, l, k - 1);
      RankBounds(|answers|, l, k - 1);
      var r := RankRange(|answers|, k - 1, l);
      var v, w := Written(answers, l, k - 1), Written(answers, l, k);
      if k == 1 {
        assert v == [] && answers[..0] == [];
      }
      assert Concat(v) == answers[..r.start];
      if HasRows(|answers|, k - 1, l) {
        assert w == v + [FileOf(answers, k - 1, l)];
        assert w[..|w| - 1] == v && w[|w| - 1].rows == answers[r.start..r.end];
        assert answers[..r.start] + answers[r.start..r.end] == answers[..r.end];
      } else {
        assert w == v;
      }
    }
  }

  lemma RanksAscend(l: Layout, i: nat, k: nat)
    requires l.perWorker > 0 && i < k
    ensures i / l.perWorker < k / l.perWorker
        || (i / l.perWorker == k / l.perWorker && i % l.perWorker < k % l.perWorker)
  {
    var p := l.perWorker;
    if k / p <= i / p {
      assert i == p * (i / p) + i % p && k == p * (k / p) + k % p;
      MulMono(p, k / p, i / p);
      if k / p < i / p {
        MulMono(p, k / p + 1, i / p);
      }
    }
  }

  ghost predicate FromRankBelow<T>(f: ResultFile<T>, answers: seq<T>, l: Layout, k: nat)
    requires l.perWorker > 0
  {
    exists r: nat :: r < k && HasRows(|answers|, r, l) && f == FileOf(answers, r, l)
  }

  lemma {:induction false} WrittenOrdered<T>(answers: seq<T>, l: Layout, k: nat)
    requires l.Valid() && k <= l.total
    ensures StrictlyOrdered(Written(answers, l, k))
    ensures forall i :: 0 <= i < |Written(answers, l, k)| ==> FromRankBelow(Written(answers, l, k)[i], answers, l, k)
  {
    hide HasRows, FileOf, SortKey, Before;
    if k > 0 {
      WrittenOrdered(answers, l, k - 1);
      var v, w := Written(answers, l, k - 1), Written(answers, l, k);
      forall i | 0 <= i < |v|
        ensures FromRankBelow(v[i], answers, l, k)
        ensures Before(SortKey(v[i].name), SortKey(FileOf(answers, k - 1, l).name))
      {
        assert FromRankBelow(v[i], answers, l, k - 1);
        var r: nat :| r < k - 1 && HasRows(|answers|, r, l) && v[i] == FileOf(answers, r, l);
        FilesAscend(answers, l, r, k - 1);
      }
      if |w| > |v| {
        assert FromRankBelow(w[|v|], answers, l, k);
      }
    }
  }

  lemma FilesAscend<T>(answers: seq<T>, l: Layout, i: nat, k: nat)
    requires l.perWorker > 0 && i < k
    ensures Before(SortKey(FileOf(answers, i, l).name), SortKey(FileOf(answers, k, l).name))
  {
    hide SortKey, FileName, Before, RowsOf;
    NameKeepsKey(i / l.perWorker, i % l.perWorker);
    NameKeepsKey(k / l.perWorker, k % l.perWorker);
    RanksAscend(l, i, k);
    KeyBefore(SortKey(FileOf(answers, i, l).name), SortKey(FileOf(answers, k, l).name));
  }

  lemma KeyBefore(a: Key, b: Key)
    requires a.worker < b.worker || (a.worker == b.worker && a.client < b.client)
    ensures Before(a, b)
  {
  }

  /** However the result files are listed, ordering them by the numbers in their names gives
      back one result a query, in query order. */
  lemma OrderedFilesAreTheAnswers<T>(answers: seq<T>, l: Layout, sorted: seq<ResultFile<T>>)
    requires l.Valid()
    requires multiset(sorted) == multiset(Written(answers, l, l.total)) && Ordered(sorted)
    ensures Concat(sorted) == answers
  {
    WrittenOrdered(answers, l, l.total);
    OrderIsUnique(Written(answers, l, l.total), sorted);
    WrittenRows(answers, l, l.total);
    RankBounds(|answers|, l, l.total - 1);
  }

  // ---------------------------------------------------------- the Rust merge

  datatype Chunk<T> = Chunk(start: nat, rows: seq<T>)

  /** Assigning a chunk's rows into the matrix. */
  function Overlay<T>(m: seq<T>, c: Chunk<T>): seq<T>
  {
    seq(|m|, i requires 0 <= i < |m| => if c.start <= i < c.start + |c.rows| then c.rows[i - c.start] else m[i])
  }

  function Merged<T>(n: nat, filler: T, chunks: seq<Chunk<T>>): (m: seq<T>)
    ensures |m| == n
  {
    if chunks == [] then seq(n, _ => filler)
    else Overlay(Merged(n, filler, chunks[..|chunks| - 1]), chunks[|chunks| - 1])
  }

  /** `merge_query_result_chunks`; `filler` is the row of -1. A chunk that does not fit makes
      the slice panic. */
  method MergeQueryResultChunks<T>(n: nat, filler: T, chunks: seq<Chunk<T>>) returns (m: array<T>)
    requires forall i :: 0 <= i < |chunks| ==> chunks[i].start + |chunks[i].rows| <= n
    ensures m[..] == Merged(n, filler, chunks)
  {
    m := new T[n](_ => filler);
    assert chunks[..0] == [];
    for i := 0 to |chunks|
      invariant m.Length == n
      invariant m[..] == Merged(n, filler, chunks[..i])
    {
      var c := chunks[i];
      ghost var before := m[..];
      for j := 0 to |c.rows|
        invariant forall r :: 0 <= r < n ==>
            m[r] == if c.start <= r < c.start + j then c.rows[r - c.start] else before[r]
      {
        m[c.start + j] := c.rows[j];
      }
      assert m[..] == Overlay(before, c);
      assert chunks[..i + 1][..i] == chunks[..i];
    }
    assert chunks[..|chunks|] == chunks;
  }

  predicate Covers<T>(c: Chunk<T>, r: nat)
  {
    c.start <= r < c.start + |c.rows|
  }

  function Covered<T>(c: Chunk<T>, r: nat): T
    requires Covers(c, r)
  {
    c.rows[r - c.start]
  }

  /** When every chunk holds its rows of the same matrix, a row of the merge is that matrix's
      where some chunk covers it and the filler elsewhere. */
  lemma {:induction false} MergedRow<T>(n: nat, filler: T, chunks: seq<Chunk<T>>, answers: seq<T>, r: nat)
    requires r < n == |answers|
    requires forall i :: 0 <= i < |chunks| ==> Covers(chunks[i], r) ==> Covered(chunks[i], r) == answers[r]
    ensures Merged(n, filler, chunks)[r] ==
            if exists i :: 0 <= i < |chunks| && Covers(chunks[i], r) then answers[r] else filler
  {
    if chunks != [] {
      var k := |chunks| - 1;
      MergedRow(n, filler, chunks[..k], answers, r);
      if exists i :: 0 <= i < k && Covers(chunks[i], r) {
        var i :| 0 <= i < k && Covers(chunks[i], r);
        assert Covers(chunks[..k][i], r);
      }
    }
  }

  /** The chunks the spawned Rust clients return. */
  function Chunks<T>(answers: seq<T>, l: Layout, k: nat): seq<Chunk<T>>
    requires l.perWorker > 0
  {
    if k == 0 then []
    else Chunks(answers, l, k - 1) +
         (if HasRows(|answers|, k - 1, l)
          then [Chunk(RankRange(|answers|, k - 1, l).start, RowsOf(answers, k - 1, l))] else [])
  }

  lemma {:induction false} ChunksHoldRows<T>(answers: seq<T>, l: Layout, k: nat, c: Chunk<T>, r: nat)
    requires l.Valid() && k <= l.total && c in Chunks(answers, l, k) && Covers(c, r) && r < |answers|
    ensures Covered(c, r) == answers[r]
  {
    hide RankRange;
    if c in Chunks(answers, l, k - 1) {
      ChunksHoldRows(answers, l, k - 1, c, r);
    } else {
      RankBounds(|answers|, l, k - 1);
    }
  }

  lemma {:induction false} ChunksCover<T>(answers: seq<T>, l: Layout, k: nat, r: nat) returns (c: Chunk<T>)
    requires l.Valid() && 0 < k <= l.total && r < RankRange(|answers|, k - 1, l).end
    ensures c in Chunks(answers, l, k) && Covers(c, r)
  {
    hide RankRange;
    RankBounds(|answers|, l, k - 1);
    var s := RankRange(|answers|, k - 1, l);
    if s.start <= r {
      c := Chunk(s.start, RowsOf(answers, k - 1, l));
      assert Chunks(answers, l, k)[|Chunks(answers, l, k)| - 1] == c;
    } else {
      c := ChunksCover(answers, l, k - 1, r);
    }
  }

  /** In whatever order the chunks are merged, the matrix is one result a query, in query
      order, with no filler left. */
  lemma MergedChunksAreTheAnswers<T>(answers: seq<T>, filler: T, l: Layout, chunks: seq<Chunk<T>>)
    requires l.Valid() && multiset(chunks) == multiset(Chunks(answers, l, l.total))
    ensures Merged(|answers|, filler, chunks) == answers
  {
    var n := |answers|;
    hide HasRows, Covers, Merged, Chunks;
    forall r | 0 <= r < n
      ensures Merged(n, filler, chunks)[r] == answers[r]
    {
      MergedAnswer(answers, filler, l, chunks, r);
    }
  }

  lemma MergedAnswer<T>(answers: seq<T>, filler: T, l: Layout, chunks: seq<Chunk<T>>, r: nat)
    requires l.Valid() && multiset(chunks) == multiset(Chunks(answers, l, l.total)) && r < |answers|
    ensures Merged(|answers|, filler, chunks)[r] == answers[r]
  {
    hide HasRows, Covers, Merged, Chunks, RankRange;
    var all := Chunks(answers, l, l.total);
    forall i | 0 <= i < |chunks| && Covers(chunks[i], r)
      ensures Covered(chunks[i], r) == answers[r]
    {
      assert chunks[i] in multiset(all);
      ChunksHoldRows(answers, l, l.total, chunks[i], r);
    }
    MergedRow(|answers|, filler, chunks, answers, r);
    RankBounds(|answers|, l, l.total - 1);
    var c := ChunksCover(answers, l, l.total, r);
    assert c in multiset(all);
    var i :| 0 <= i < |chunks| && chunks[i] == c;
  }

  /** The two clients' results agree: the Go files in the recall tool's order hold the rows
      of the Rust client's matrix. */
  lemma FilesAgreeWithMerge<T>(answers: seq<T>, filler: T, l: Layout, sorted: seq<ResultFile<T>>, chunks: seq<Chunk<T>>)
    requires l.Valid()
    requires multiset(sorted) == multiset(Written(answers, l, l.total)) && Ordered(sorted)
    requires multiset(chunks) == multiset(Chunks(answers, l, l.total))
    ensures Concat(sorted) == Merged(|answers|, filler, chunks)
  {
    OrderedFilesAreTheAnswers(answers, l, sorted);
    MergedChunksAreTheAnswers(answers, filler, l, chunks);
  }
}
