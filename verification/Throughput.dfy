/** Throughput rows of the mixed timeline: the insert operations up to the last query, the
    fixed intervals after it, and the split by client all add up to the aggregate. */
module Throughput {
  import opened Basics

  /** A successful insert operation. */
  datatype Event = Event(client: int, completedAt: int, startRow: nat, endRow: nat)

  datatype Row = Row(from: int, to: int, ops: nat, vectors: int)

  function Volume(es: seq<Event>): int
  {
    if es == [] then 0 else Volume(es[..|es| - 1]) + (es[|es| - 1].endRow - es[|es| - 1].startRow)
  }

  /** The operations completed by `t`, and those after `lo` up to `hi`. */
  function By(es: seq<Event>, t: int): seq<Event>
  {
    if es == [] then []
    else By(es[..|es| - 1], t) + (if es[|es| - 1].completedAt <= t then [es[|es| - 1]] else [])
  }

  function Between(es: seq<Event>, lo: int, hi: int): seq<Event>
  {
    if es == [] then []
    else Between(es[..|es| - 1], lo, hi) + (if lo < es[|es| - 1].completedAt <= hi then [es[|es| - 1]] else [])
  }

  function RowOf(es: seq<Event>, lo: int, hi: int): Row
  {
    Row(lo, hi, |Between(es, lo, hi)|, Volume(Between(es, lo, hi)))
  }

  function Ops(rows: seq<Row>): nat
  {
    if rows == [] then 0 else Ops(rows[..|rows| - 1]) + rows[|rows| - 1].ops
  }

  function Vectors(rows: seq<Row>): int
  {
    if rows == [] then 0 else Vectors(rows[..|rows| - 1]) + rows[|rows| - 1].vectors
  }

  lemma VolumeAppend(es: seq<Event>, e: Event)
    ensures Volume(es + [e]) == Volume(es) + (e.endRow - e.startRow) && Volume(es + []) == Volume(es)
  {
    assert (es + [e])[..|es|] == es;
    assert es + [] == es;
  }

  /** What is done by `hi` was done by `lo` or between. */
  lemma {:induction false} ByAndBetween(es: seq<Event>, lo: int, hi: int)
    requires lo <= hi
    ensures |By(es, hi)| == |By(es, lo)| + |Between(es, lo, hi)|
    ensures Volume(By(es, hi)) == Volume(By(es, lo)) + Volume(Between(es, lo, hi))
  {
    if es != [] {
      var init, e := es[..|es| - 1], es[|es| - 1];
      ByAndBetween(init, lo, hi);
      VolumeAppend(By(init, hi), e);
      VolumeAppend(By(init, lo), e);
      VolumeAppend(Between(init, lo, hi), e);
    }
  }

  lemma {:induction false} AllBy(es: seq<Event>, t: int)
    requires forall e :: e in es ==> e.completedAt <= t
    ensures By(es, t) == es
  {
    if es != [] {
      AllBy(es[..|es| - 1], t);
      assert es == es[..|es| - 1] + [es[|es| - 1]];
    }
  }

  /** Consecutive intervals of one length from `start`. */
  ghost predicate Intervals(rows: seq<Row>, es: seq<Event>, start: int, interval: int)
  {
    && (forall k :: 0 <= k < |rows| ==>
        rows[k] == RowOf(es, rows[k].from, rows[k].to) && rows[k].to == rows[k].from + interval)
    && (rows != [] ==> rows[0].from == start)
    && (forall j, k :: 0 <= j && k == j + 1 < |rows| ==> rows[j].to == rows[k].from)
  }

  ghost predicate IsLast(es: seq<Event>, t: int)
  {
    (exists e :: e in es && e.completedAt == t) && forall e :: e in es ==> e.completedAt <= t
  }

  method Latest(es: seq<Event>) returns (t: int)
    requires es != []
    ensures IsLast(es, t)
  {
    t := es[0].completedAt;
    for i := 1 to |es|
      invariant exists e :: e in es && e.completedAt == t
      invariant forall j :: 0 <= j < i ==> es[j].completedAt <= t
    {
      if es[i].completedAt > t {
        t := es[i].completedAt;
      }
    }
  }

  /** The rows for the time after the last query. The mixed-window row and the interval rows
      together account for every insert; the loop ends because the interval is positive. */
  method PostQueryRows(es: seq<Event>, lastQuery: int, interval: int) returns (mixed: Row, rows: seq<Row>)
    requires interval > 0
    ensures mixed.ops == |By(es, lastQuery)| && mixed.vectors == Volume(By(es, lastQuery))
    ensures mixed.ops + Ops(rows) == |es| && mixed.vectors + Vectors(rows) == Volume(es)
    ensures Intervals(rows, es, lastQuery, interval)
    ensures forall e :: e in es && e.completedAt > lastQuery ==> rows != [] && e.completedAt <= rows[|rows| - 1].to
    ensures rows != [] ==> exists e :: e in es && e.completedAt > rows[|rows| - 1].from
  {
    hide Intervals, By, Between, Volume, Ops, Vectors, RowOf;
    NoIntervals(es, lastQuery, interval);
    var before := By(es, lastQuery);
    mixed := Row(lastQuery, lastQuery, |before|, Volume(before));
    rows := [];
    if es == [] {
      AllBy(es, lastQuery);
      return;
    }
    var last := Latest(es);
    var start := lastQuery;
    while start < last
      invariant start == if rows == [] then lastQuery else rows[|rows| - 1].to
      invariant start >= lastQuery
      invariant Intervals(rows, es, lastQuery, interval)
      invariant mixed.ops + Ops(rows) == |By(es, start)| && mixed.vectors + Vectors(rows) == Volume(By(es, start))
      invariant rows != [] ==> rows[|rows| - 1].from < last
      decreases last - start
    {
      var row := RowOf(es, start, start + interval);
      ByAndBetween(es, start, start + interval);
      NextInterval(rows, es, lastQuery, interval, start);
      rows := rows + [row];
      start := start + interval;
    }
    AllBy(es, start);
  }

  lemma NoIntervals(es: seq<Event>, start: int, interval: int)
    ensures Intervals([], es, start, interval) && Ops([]) == 0 && Vectors([]) == 0
  {
  }

  lemma NextInterval(rows: seq<Row>, es: seq<Event>, first: int, interval: int, start: int)
    requires Intervals(rows, es, first, interval) && start == if rows == [] then first else rows[|rows| - 1].to
    ensures
      var row := RowOf(es, start, start + interval);
      && row.from == start && row.to == start + interval
      && Intervals(rows + [row], es, first, interval)
      && Ops(rows + [row]) == Ops(rows) + |Between(es, start, start + interval)|
      && Vectors(rows + [row]) == Vectors(rows) + Volume(Between(es, start, start + interval))
  {
    hide Between, Volume;
    var row := RowOf(es, start, start + interval);
    assert (rows + [row])[..|rows|] == rows;
  }

  /** Every late insert lies in exactly one interval. */
  lemma LateInsertInOneInterval(rows: seq<Row>, es: seq<Event>, start: int, interval: int, t: int)
    requires interval > 0 && Intervals(rows, es, start, interval) && rows != []
    requires start < t <= rows[|rows| - 1].to
    ensures exists k :: 0 <= k < |rows| && rows[k].from < t <= rows[k].to
    ensures forall j, k :: 0 <= j < k < |rows| ==> !(rows[j].from < t <= rows[j].to && rows[k].from < t <= rows[k].to)
  {
    var k := IntervalOf(rows, es, start, interval, t);
    forall j, l | 0 <= j < l < |rows|
      ensures rows[j].to <= rows[l].from
    {
      IntervalsAscend(rows, es, start, interval, j, l);
    }
  }

  lemma {:induction false} IntervalsAscend(rows: seq<Row>, es: seq<Event>, start: int, interval: int, j: nat, k: nat)
    requires interval > 0 && Intervals(rows, es, start, interval) && j < k < |rows|
    ensures rows[j].to <= rows[k].from
    decreases k
  {
    if j + 1 < k {
      IntervalsAscend(rows, es, start, interval, j, k - 1);
    }
  }

  lemma {:induction false} IntervalOf(
      rows: seq<Row>, es: seq<Event>, start: int, interval: int, t: int) returns (k: nat)
    requires interval > 0 && Intervals(rows, es, start, interval) && rows != []
    requires start < t <= rows[|rows| - 1].to
    ensures k < |rows| && rows[k].from < t <= rows[k].to
  {
    var n := |rows| - 1;
    if rows[n].from < t {
      k := n;
    } else {
      assert n > 0;
      k := IntervalOf(rows[..n], es, start, interval, t);
    }
  }

  // --------------------------------------------------------------- by client

  function OfClient(es: seq<Event>, client: int): seq<Event>
  {
    if es == [] then []
    else OfClient(es[..|es| - 1], client) + (if es[|es| - 1].client == client then [es[|es| - 1]] else [])
  }

  datatype ClientRow = ClientRow(client: int, ops: nat, vectors: int)

  function ClientOps(rows: seq<ClientRow>): nat
  {
    if rows == [] then 0 else ClientOps(rows[..|rows| - 1]) + rows[|rows| - 1].ops
  }

  function ClientVectors(rows: seq<ClientRow>): int
  {
    if rows == [] then 0 else ClientVectors(rows[..|rows| - 1]) + rows[|rows| - 1].vectors
  }

  function RowsFor(es: seq<Event>, clients: seq<int>): (rows: seq<ClientRow>)
    ensures |rows| == |clients|
  {
    seq(|clients|, i requires 0 <= i < |clients| =>
      ClientRow(clients[i], |OfClient(es, clients[i])|, Volume(OfClient(es, clients[i]))))
  }

  lemma NextOfClient(es: seq<Event>, i: nat)
    requires i < |es|
    ensures forall c :: OfClient(es[..i + 1], c) == if es[i].client == c
        then OfClient(es[..i], c) + [es[i]] else OfClient(es[..i], c)
  {
    assert es[..i + 1][..i] == es[..i];
    forall c
      ensures OfClient(es[..i + 1], c) == if es[i].client == c
          then OfClient(es[..i], c) + [es[i]] else OfClient(es[..i], c)
    {
    }
  }

  ghost predicate Grouped(byClient: map<int, seq<Event>>, es: seq<Event>)
  {
    && (forall c :: c in byClient ==> byClient[c] == OfClient(es, c) && byClient[c] != [])
    && (forall c :: c !in byClient ==> OfClient(es, c) == [])
    && (forall e :: e in es ==> e.client in byClient)
  }

  lemma GroupStep(byClient: map<int, seq<Event>>, es: seq<Event>, i: nat)
    requires i < |es| && Grouped(byClient, es[..i])
    ensures
      var c := es[i].client;
      Grouped(byClient[c := (if c in byClient then byClient[c] else []) + [es[i]]], es[..i + 1])
  {
    NextOfClient(es, i);
    assert es[..i + 1] == es[..i] + [es[i]];
    hide OfClient;
  }

  /** The events filed by client, and the clients in order of appearance. */
  method Group(es: seq<Event>) returns (byClient: map<int, seq<Event>>, keys: seq<int>)
    ensures Grouped(byClient, es)
    ensures NoRepeats(keys) && forall c :: c in keys <==> c in byClient
  {
    byClient, keys := map[], [];
    for i := 0 to |es|
      invariant Grouped(byClient, es[..i])
      invariant NoRepeats(keys) && forall c :: c in keys <==> c in byClient
    {
      GroupStep(byClient, es, i);
      hide Grouped;
      var c := es[i].client;
      if c !in byClient {
        keys := keys + [c];
      }
      byClient := byClient[c := (if c in byClient then byClient[c] else []) + [es[i]]];
    }
    assert es[..|es|] == es;
  }

  ghost predicate Ascends(s: seq<int>)
  {
    forall i, j :: 0 <= i < j < |s| ==> s[i] < s[j]
  }

  function InsertInOrder(s: seq<int>, x: int): seq<int>
  {
    if s == [] || s[|s| - 1] < x then s + [x] else InsertInOrder(s[..|s| - 1], x) + [s[|s| - 1]]
  }

  lemma {:induction false} InsertMembers(s: seq<int>, x: int, y: int)
    ensures y in InsertInOrder(s, x) <==> y == x || y in s
  {
    if s != [] && !(s[|s| - 1] < x) {
      InsertMembers(s[..|s| - 1], x, y);
      assert s == s[..|s| - 1] + [s[|s| - 1]];
    }
  }

  lemma {:induction false} InsertAscends(s: seq<int>, x: int)
    requires Ascends(s) && x !in s
    ensures Ascends(InsertInOrder(s, x))
  {
    if s != [] && !(s[|s| - 1] < x) {
      var n := |s| - 1;
      InsertAscends(s[..n], x);
      var r := InsertInOrder(s[..n], x);
      forall i | 0 <= i < |r|
        ensures r[i] < s[n]
      {
        InsertMembers(s[..n], x, r[i]);
      }
      AscendsAdd(r, s[n]);
    }
  }

  lemma AscendsAdd(s: seq<int>, x: int)
    requires Ascends(s) && forall i :: 0 <= i < |s| ==> s[i] < x
    ensures Ascends(s + [x])
  {
  }

  lemma AscendsDistinct(s: seq<int>)
    requires Ascends(s)
    ensures NoRepeats(s)
  {
  }

  /** `sorted` on distinct keys. */
  method Ascending(keys: seq<int>) returns (clients: seq<int>)
    requires NoRepeats(keys)
    ensures Ascends(clients) && forall c :: c in clients <==> c in keys
  {
    clients := [];
    for i := 0 to |keys|
      invariant Ascends(clients) && forall c :: c in clients <==> c in keys[..i]
    {
      InsertAscends(clients, keys[i]);
      forall c
        ensures c in InsertInOrder(clients, keys[i]) <==> c == keys[i] || c in clients
      {
        InsertMembers(clients, keys[i], c);
      }
      assert keys[..i + 1] == keys[..i] + [keys[i]];
      clients := InsertInOrder(clients, keys[i]);
    }
    assert keys[..|keys|] == keys;
  }

  /** The rows by client, for the clients in ascending order. */
  method PerClientRows(es: seq<Event>) returns (rows: seq<ClientRow>)
    ensures exists clients :: AscendingClients(es, clients) && rows == RowsFor(es, clients)
    ensures ClientOps(rows) == |es| && ClientVectors(rows) == Volume(es)
  {
    hide OfClient, Volume, ClientOps, ClientVectors, NoRepeats;
    var byClient, keys := Group(es);
    var clients := Ascending(keys);
    AscendsDistinct(clients);
    assert forall i :: 0 <= i < |clients| ==> clients[i] in clients;
    rows := [];
    for i := 0 to |clients|
      invariant rows == RowsFor(es, clients[..i])
    {
      assert clients[i] in clients;
      assert clients[..i + 1] == clients[..i] + [clients[i]];
      var group := byClient[clients[i]];
      rows := rows + [ClientRow(clients[i], |group|, Volume(group))];
    }
    assert clients[..|clients|] == clients;
    assert AscendingClients(es, clients);
    ClientsAddUp(es, clients);
  }

  /** Exactly the clients with events, each once, in ascending order. */
  ghost predicate AscendingClients(es: seq<Event>, clients: seq<int>)
  {
    && Ascends(clients)
    && (forall i :: 0 <= i < |clients| ==> OfClient(es, clients[i]) != [])
    && (forall e :: e in es ==> e.client in clients)
  }

  /** Split over distinct clients that cover all events, nothing is lost or counted twice. */
  lemma {:induction false} ClientsAddUp(es: seq<Event>, clients: seq<int>)
    requires NoRepeats(clients) && forall e :: e in es ==> e.client in clients
    ensures ClientOps(RowsFor(es, clients)) == |es| && ClientVectors(RowsFor(es, clients)) == Volume(es)
  {
    if es == [] {
      NoEvents(clients);
    } else {
      var n := |es| - 1;
      ClientsAddUp(es[..n], clients);
      assert es[n] in es;
      OneMoreEvent(es, clients);
    }
  }

  lemma {:induction false} NoEvents(clients: seq<int>)
    ensures ClientOps(RowsFor([], clients)) == 0 && ClientVectors(RowsFor([], clients)) == 0
  {
    if clients != [] {
      var n := |clients| - 1;
      NoEvents(clients[..n]);
      assert RowsFor([], clients)[..n] == RowsFor([], clients[..n]);
    }
  }

  lemma {:induction false} OneMoreEvent(es: seq<Event>, clients: seq<int>)
    requires es != [] && NoRepeats(clients)
    ensures
      var n := |es| - 1;
      var hit := es[n].client in clients;
      && ClientOps(RowsFor(es, clients)) == ClientOps(RowsFor(es[..n], clients)) + (if hit then 1 else 0)
      && ClientVectors(RowsFor(es, clients)) ==
         ClientVectors(RowsFor(es[..n], clients)) + (if hit then es[n].endRow - es[n].startRow else 0)
  {
    if clients != [] {
      var n, m := |es| - 1, |clients| - 1;
      OneMoreEvent(es, clients[..m]);
      assert RowsFor(es, clients)[..m] == RowsFor(es, clients[..m]);
      assert RowsFor(es[..n], clients)[..m] == RowsFor(es[..n], clients[..m]);
      assert clients == clients[..m] + [clients[m]];
      VolumeAppend(OfClient(es[..n], clients[m]), es[n]);
    }
  }
}
