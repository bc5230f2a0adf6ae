/** Which inserted rows a query could see, from the log of insert events.

    The recall reconstruction keeps one list of rows in completion order, so that the rows
    visible at any moment are a prefix of it, together with the inverse: the place of every
    row in that list. */
module Visibility {
  import opened Basics

  /** The fields of an insert log record that visibility depends on. */
  datatype InsertEvent = InsertEvent(completedAt: int, startRow: nat, endRow: nat, ok: bool)

  /** What every log writer guarantees about a record's row block. */
  ghost predicate WellFormed(events: seq<InsertEvent>)
  {
    forall e :: e in events ==> e.startRow <= e.endRow
  }

  /** The order `load_events` puts the insert events in. */
  ghost predicate ByCompletion(events: seq<InsertEvent>)
  {
    forall i, j :: 0 <= i < j < |events| ==> events[i].completedAt <= events[j].completedAt
  }

  // ---------------------------------------------------- reference definition

  function Block(e: InsertEvent): seq<nat>
  {
    seq(if e.startRow <= e.endRow then e.endRow - e.startRow else 0, i requires 0 <= i => e.startRow + i)
  }

  /** The blocks of all given events, one after the other. */
  function Rows(events: seq<InsertEvent>): seq<nat>
  {
    if events == [] then [] else Rows(events[..|events| - 1]) + Block(events[|events| - 1])
  }

  function OkEvents(events: seq<InsertEvent>): seq<InsertEvent>
  {
    if events == [] then []
    else
      var e := events[|events| - 1];
      var before := OkEvents(events[..|events| - 1]);
      if e.ok then before + [e] else before
  }

  /** The events whose rows are visible to a query under a cutoff time. */
  function VisibleEvents(events: seq<InsertEvent>, cutoff: int): seq<InsertEvent>
  {
    if events == [] then []
    else
      var e := events[|events| - 1];
      var before := VisibleEvents(events[..|events| - 1], cutoff);
      if e.ok && e.completedAt <= cutoff then before + [e] else before
  }

  /** Rows inserted by events that completed, successfully, no later than the cutoff. */
  function VisibleRows(events: seq<InsertEvent>, cutoff: int): seq<nat>
  {
    Rows(VisibleEvents(events, cutoff))
  }

  // ------------------------------------------------------------------- index

  function Times(events: seq<InsertEvent>): seq<int>
  {
    seq(|events|, i requires 0 <= i < |events| => events[i].completedAt)
  }

  function Offsets(events: seq<InsertEvent>): seq<nat>
  {
    seq(|events| + 1, i requires 0 <= i <= |events| => |Rows(events[..i])|)
  }

  /** The last place of `row` in `rows`, or -1. */
  function LastPlace(rows: seq<nat>, row: nat): (p: int)
    ensures -1 <= p < |rows|
    ensures p >= 0 ==> rows[p] == row
    ensures forall q :: p < q < |rows| ==> rows[q] != row
  {
    if rows == [] then -1
    else if rows[|rows| - 1] == row then |rows| - 1
    else LastPlace(rows[..|rows| - 1], row)
  }

  lemma LastPlaceOfAppended(rows: seq<nat>, e: InsertEvent, row: nat)
    ensures LastPlace(rows + Block(e), row)
         == if e.startRow <= row < e.endRow then |rows| + (row - e.startRow) else LastPlace(rows, row)
  {
    var all := rows + Block(e);
    var p := LastPlace(all, row);
    forall q | |rows| <= q < |all|
      ensures all[q] == e.startRow + (q - |rows|)
    {
    }
    if e.startRow <= row < e.endRow {
      assert all[|rows| + (row - e.startRow)] == row;
    } else {
      assert forall q :: 0 <= q < |rows| ==> all[q] == rows[q];
      assert p < |rows|;
      LastPlaceUnique(rows, row, p);
    }
  }

  lemma LastPlaceUnique(rows: seq<nat>, row: nat, p: int)
    requires -1 <= p < |rows|
    requires p >= 0 ==> rows[p] == row
    requires forall q :: p < q < |rows| ==> rows[q] != row
    ensures LastPlace(rows, row) == p
  {
  }

  ghost predicate InverseOf(order: seq<int>, rows: seq<nat>)
  {
    forall r :: 0 <= r < |order| ==> order[r] == LastPlace(rows, r)
  }

  /** A block fits a matrix of `rowCount` rows; an empty block touches nothing. */
  predicate Fits(e: InsertEvent, rowCount: nat)
  {
    e.startRow < e.endRow ==> e.endRow <= rowCount
  }

  /** The fancy-indexed assignment of one block's places. */
  method PlaceBlock(order: array<int>, e: InsertEvent, startOrder: nat, ghost rows: seq<nat>)
    requires e.startRow <= e.endRow && Fits(e, order.Length)
    requires startOrder == |rows| && InverseOf(order[..], rows)
    modifies order
    ensures InverseOf(order[..], rows + Block(e))
  {
    ghost var before := order[..];
    forall r | e.startRow <= r < e.endRow {
      order[r] := startOrder + (r - e.startRow);
    }
    forall r | 0 <= r < order.Length
      ensures order[..][r] == LastPlace(rows + Block(e), r)
    {
      LastPlaceOfAppended(rows, e, r);
      assert before[r] == LastPlace(rows, r);
    }
  }

  /** Python `build_insert_visibility_index`. `ok` is false where numpy raises `IndexError`. */
  method BuildInsertVisibilityIndex(events: seq<InsertEvent>, rowCount: nat)
    returns (ok: bool, times: seq<int>, offsets: seq<nat>, allRows: seq<nat>, order: array<int>)
    requires WellFormed(events)
    ensures fresh(order) && order.Length == rowCount
    ensures ok <==> forall e :: e in events && e.ok ==> Fits(e, rowCount)
    ensures ok ==> times == Times(OkEvents(events))
    ensures ok ==> offsets == Offsets(OkEvents(events))
    ensures ok ==> allRows == Rows(OkEvents(events))
    ensures ok ==> InverseOf(order[..], allRows)
  {
    hide Rows, Times, Offsets, OkEvents, InverseOf;
    ok, times, offsets, allRows := true, [], [0], [];
    order := new int[rowCount](_ => -1);
    EmptyIndex(order[..]);
    for i := 0 to |events|
      invariant ok && fresh(order) && order.Length == rowCount
      invariant forall e :: e in events[..i] && e.ok ==> Fits(e, rowCount)
      invariant times == Times(OkEvents(events[..i]))
      invariant offsets == Offsets(OkEvents(events[..i]))
      invariant allRows == Rows(OkEvents(events[..i]))
      invariant InverseOf(order[..], allRows)
    {
      var e := events[i];
      assert events[..i + 1] == events[..i] + [e];
      NextOkEvents(events, i);
      if !e.ok {
        continue;
      }
      if e.startRow < e.endRow && e.endRow > rowCount {
        ok := false;
        return;
      }
      AppendEvent(OkEvents(events[..i]), e);
      times := times + [e.completedAt];
      PlaceBlock(order, e, offsets[|offsets| - 1], allRows);
      allRows := allRows + Block(e);
      offsets := offsets + [offsets[|offsets| - 1] + (e.endRow - e.startRow)];
    }
    assert events[..|events|] == events;
  }

  lemma EmptyIndex(order: seq<int>)
    requires forall i :: 0 <= i < |order| ==> order[i] == -1
    ensures OkEvents([]) == [] && Times([]) == [] && Offsets([]) == [0] && Rows([]) == []
    ensures InverseOf(order, [])
  {
  }

  lemma NextOkEvents(events: seq<InsertEvent>, i: nat)
    requires i < |events|
    ensures OkEvents(events[..i + 1]) == if events[i].ok
        then OkEvents(events[..i]) + [events[i]] else OkEvents(events[..i])
  {
    assert events[..i + 1][..i] == events[..i];
  }

  lemma RowsOfSnoc(es: seq<InsertEvent>, e: InsertEvent)
    ensures Rows(es + [e]) == Rows(es) + Block(e)
  {
    assert (es + [e])[..|es|] == es;
  }

  lemma AppendOffset(es: seq<InsertEvent>, e: InsertEvent)
    ensures |Offsets(es)| == |es| + 1 && Offsets(es)[|es|] == |Rows(es)|
    ensures Offsets(es + [e]) == Offsets(es) + [|Rows(es + [e])|]
  {
    hide Rows;
    var both := es + [e];
    assert es[..|es|] == es && both[..|both|] == both;
    var before, after := Offsets(es), Offsets(both);
    forall i | 0 <= i < |before|
      ensures after[i] == before[i]
    {
      assert both[..i] == es[..i];
    }
    assert after == after[..|before|] + [after[|before|]];
    assert after[..|before|] == before;
  }

  lemma AppendEvent(es: seq<InsertEvent>, e: InsertEvent)
    requires e.startRow <= e.endRow
    ensures Times(es + [e]) == Times(es) + [e.completedAt]
    ensures Rows(es + [e]) == Rows(es) + Block(e)
    ensures |Offsets(es)| == |es| + 1 && Offsets(es)[|es|] == |Rows(es)|
    ensures Offsets(es + [e]) == Offsets(es) + [|Rows(es)| + (e.endRow - e.startRow)]
  {
    RowsOfSnoc(es, e);
    AppendOffset(es, e);
    hide Rows, Offsets;
  }

  // ---------------------------------------------------------- visible prefix

  /** Python `bisect.bisect_right`. */
  function BisectRight(s: seq<int>, x: int): (r: nat)
    ensures r <= |s|
  {
    if s == [] then 0
    else if s[|s| - 1] <= x then |s|
    else BisectRight(s[..|s| - 1], x)
  }

  /** Python `visible_insert_count`. */
  function VisibleInsertCount(times: seq<int>, offsets: seq<nat>, queryTime: int, lag: int): nat
    requires |offsets| == |times| + 1
  {
    offsets[BisectRight(times, queryTime - lag)]
  }

  lemma {:induction false} VisibleFromOk(events: seq<InsertEvent>, cutoff: int)
    ensures VisibleEvents(OkEvents(events), cutoff) == VisibleEvents(events, cutoff)
  {
    if events != [] {
      var init, e := events[..|events| - 1], events[|events| - 1];
      VisibleFromOk(init, cutoff);
      if e.ok {
        assert (OkEvents(init) + [e])[..|OkEvents(init)|] == OkEvents(init);
      } else {
        assert OkEvents(events) == OkEvents(init);
      }
    }
  }

  lemma {:induction false} OkEventsFrom(events: seq<InsertEvent>)
    ensures forall e :: e in OkEvents(events) <==> e in events && e.ok
  {
    if events != [] {
      OkEventsFrom(events[..|events| - 1]);
      assert events == events[..|events| - 1] + [events[|events| - 1]];
    }
  }

  lemma {:induction false} OkEventsSorted(events: seq<InsertEvent>)
    requires ByCompletion(events)
    ensures ByCompletion(OkEvents(events))
  {
    if events != [] {
      var init := events[..|events| - 1];
      OkEventsSorted(init);
      OkEventsFrom(init);
    }
  }

  /** Over a log in completion order, the visible events are the prefix that the binary
      search finds. */
  lemma {:induction false} VisibleIsPrefix(es: seq<InsertEvent>, cutoff: int)
    requires ByCompletion(es) && forall e :: e in es ==> e.ok
    ensures VisibleEvents(es, cutoff) == es[..BisectRight(Times(es), cutoff)]
  {
    if es != [] {
      var n := |es| - 1;
      assert Times(es)[..n] == Times(es[..n]);
      if es[n].completedAt <= cutoff {
        AllBelow(es, cutoff);
      } else {
        VisibleIsPrefix(es[..n], cutoff);
        var i := BisectRight(Times(es[..n]), cutoff);
        assert es[..n][..i] == es[..i];
      }
    }
  }

  lemma {:induction false} AllBelow(es: seq<InsertEvent>, cutoff: int)
    requires forall e :: e in es ==> e.ok && e.completedAt <= cutoff
    ensures VisibleEvents(es, cutoff) == es
  {
    if es != [] {
      AllBelow(es[..|es| - 1], cutoff);
      assert es[..|es| - 1] + [es[|es| - 1]] == es;
    }
  }

  lemma {:induction false} RowsOfPrefix(es: seq<InsertEvent>, i: nat)
    requires i <= |es|
    ensures Rows(es[..i]) <= Rows(es)
  {
    if i < |es| {
      RowsOfPrefix(es[..|es| - 1], i);
      assert es[..|es| - 1][..i] == es[..i];
    } else {
      assert es[..i] == es;
    }
  }

  lemma CountedPrefix(es: seq<InsertEvent>, i: nat)
    requires i <= |es|
    ensures Offsets(es)[i] <= |Rows(es)|
    ensures Rows(es)[..Offsets(es)[i]] == Rows(es[..i])
  {
    RowsOfPrefix(es, i);
  }

  /** Over the whole log, the visible events are a prefix of the successful ones. */
  lemma VisiblePrefixOfOk(events: seq<InsertEvent>, cutoff: int)
    requires ByCompletion(events)
    ensures VisibleEvents(events, cutoff) == OkEvents(events)[..BisectRight(Times(OkEvents(events)), cutoff)]
  {
    OkEventsSorted(events);
    OkEventsFrom(events);
    VisibleFromOk(events, cutoff);
    VisibleIsPrefix(OkEvents(events), cutoff);
  }

  /** The refinement at the heart of the index: for every cutoff, the prefix of the row list
      that two lookups find is exactly the rows visible by definition, in order. */
  lemma PrefixIsVisible(events: seq<InsertEvent>, queryTime: int, lag: int)
    requires ByCompletion(events)
    ensures
      var ok := OkEvents(events);
      var n := VisibleInsertCount(Times(ok), Offsets(ok), queryTime, lag);
      n <= |Rows(ok)| && Rows(ok)[..n] == VisibleRows(events, queryTime - lag)
  {
    var ok := OkEvents(events);
    VisiblePrefixOfOk(events, queryTime - lag);
    CountedPrefix(ok, BisectRight(Times(ok), queryTime - lag));
  }

  /** Larger lags never show more rows. */
  lemma LargerLagShowsLess(events: seq<InsertEvent>, queryTime: int, small: int, large: int)
    requires ByCompletion(events) && small <= large
    ensures VisibleRows(events, queryTime - large) <= VisibleRows(events, queryTime - small)
  {
    var ok := OkEvents(events);
    VisiblePrefixOfOk(events, queryTime - large);
    VisiblePrefixOfOk(events, queryTime - small);
    hide OkEvents, VisibleEvents, Rows, Times, BisectRight, ByCompletion;
    BisectMonotone(Times(ok), queryTime - large, queryTime - small);
    NestedPrefixes(ok, BisectRight(Times(ok), queryTime - large), BisectRight(Times(ok), queryTime - small));
  }

  lemma NestedPrefixes(es: seq<InsertEvent>, i: nat, j: nat)
    requires i <= j <= |es|
    ensures Rows(es[..i]) <= Rows(es[..j])
  {
    RowsOfPrefix(es[..j], i);
    assert es[..j][..i] == es[..i];
  }

  lemma {:induction false} BisectMonotone(s: seq<int>, x: int, y: int)
    requires x <= y
    ensures BisectRight(s, x) <= BisectRight(s, y)
  {
    if s != [] {
      BisectMonotone(s[..|s| - 1], x, y);
    }
  }

  // ------------------------------------------------------------ inverse test

  /** The insert half of Python `is_id_visible_under_lag`, on a row number. */
  predicate RowVisible(order: seq<int>, row: int, visibleCount: nat)
  {
    && 0 <= row < |order|
    && 0 <= order[row] < visibleCount
  }

  /** Python `is_id_visible_under_lag`. */
  predicate IsIdVisible(id: int, initOffset: int, initCount: nat, insertOffset: int, visibleCount: nat, order: seq<int>)
  {
    || (initCount > 0 && initOffset <= id < initOffset + initCount)
    || RowVisible(order, id - insertOffset, visibleCount)
  }

  /** The inverse answers membership in every visible prefix, exactly when no row is in the
      list twice: a repeated row keeps only its last place, so a prefix that holds it only
      by an earlier one is misjudged. */
  lemma InverseExactIff(order: seq<int>, rows: seq<nat>)
    requires InverseOf(order, rows) && forall r :: r in rows ==> r < |order|
    ensures NoRepeats(rows) <==>
              forall n, row :: 0 <= n <= |rows| ==> (RowVisible(order, row, n) <==> row in rows[..n])
  {
    if NoRepeats(rows) {
      forall n, row | 0 <= n <= |rows|
        ensures RowVisible(order, row, n) <==> row in rows[..n]
      {
        DistinctInverse(order, rows, n, row);
      }
    }
    if i, j :| 0 <= i < j < |rows| && rows[i] == rows[j] {
      var row := rows[i];
      assert row in rows;
      assert rows[..i + 1][i] == row;
      assert row in rows[..i + 1];
      assert order[row] >= j;
      assert !RowVisible(order, row, i + 1);
    }
  }

  lemma TwoOkEvents(e: InsertEvent, f: InsertEvent)
    requires e.ok && f.ok
    ensures OkEvents([e, f]) == [e, f] && Rows([e, f]) == Block(e) + Block(f) && Rows([e, f][..1]) == Block(e)
  {
    hide Block;
    assert [e, f][..1] == [e] && [e][..0] == [];
    assert OkEvents([e]) == [e] && Rows([e]) == Block(e);
  }

  lemma CountBetween(e: InsertEvent, f: InsertEvent)
    requires e.completedAt == 0 && f.completedAt == 1
    ensures VisibleInsertCount(Times([e, f]), Offsets([e, f]), 0, 0) == |Rows([e, f][..1])|
  {
    hide Rows;
    var times := Times([e, f]);
    assert times[1] == 1 && times[..1][0] == 0;
    assert BisectRight(times[..1], 0) == 1;
    assert BisectRight(times, 0) == 1;
  }

  /** One row inserted twice: a query between the two sees it, and the index says it does not. */
  method RepeatedRowIsMisjudged() returns (visible: bool, shown: bool)
    ensures visible && !shown
  {
    var e, f := InsertEvent(0, 0, 1, true), InsertEvent(1, 0, 1, true);
    var events := [e, f];
    TwoOkEvents(e, f);
    CountBetween(e, f);
    assert Block(e) == [0] && Block(f) == [0];
    hide OkEvents, Rows, Block, VisibleRows, VisibleInsertCount, Times, Offsets;
    assert [0] + [0] == [0, 0] && [0, 0][..1] == [0];
    var ok, times, offsets, rows, order := BuildInsertVisibilityIndex(events, 1);
    PrefixIsVisible(events, 0, 0);
    var count := VisibleInsertCount(times, offsets, 0, 0);
    assert rows == [0, 0] && count == 1 && order[..][0] == LastPlace(rows, 0) == 1;
    visible := 0 in VisibleRows(events, 0);
    shown := IsIdVisible(0, 0, 0, 0, count, order[..]);
  }

  lemma DistinctInverse(order: seq<int>, rows: seq<nat>, n: nat, row: int)
    requires InverseOf(order, rows) && NoRepeats(rows) && n <= |rows|
    requires forall r :: r in rows ==> r < |order|
    ensures RowVisible(order, row, n) <==> row in rows[..n]
  {
    if RowVisible(order, row, n) {
      assert rows[..n][order[row]] == row;
    }
    if row in rows[..n] {
      var p :| 0 <= p < n && rows[..n][p] == row;
      assert rows[p] == row;
      assert row in rows;
      LastPlaceUnique(rows, row, p);
    }
  }

  /** An id passes the test exactly when it names an initial vector or a visible row. */
  lemma VisibleIdsExact(
      id: int, initOffset: int, initCount: nat, insertOffset: int, order: seq<int>, rows: seq<nat>, n: nat)
    requires InverseOf(order, rows) && NoRepeats(rows) && n <= |rows|
    requires forall r :: r in rows ==> r < |order|
    ensures IsIdVisible(id, initOffset, initCount, insertOffset, n, order) <==>
              initOffset <= id < initOffset + initCount || (id - insertOffset >= 0 && (id - insertOffset) in rows[..n])
  {
    DistinctInverse(order, rows, n, id - insertOffset);
  }

  // --------------------------------------------------- disjoint insert blocks

  ghost predicate Disjoint(e: InsertEvent, f: InsertEvent)
  {
    e.startRow >= e.endRow || f.startRow >= f.endRow || e.endRow <= f.startRow || f.endRow <= e.startRow
  }

  ghost predicate DisjointBlocks(es: seq<InsertEvent>)
  {
    forall i, j :: 0 <= i < j < |es| ==> Disjoint(es[i], es[j])
  }

  lemma {:induction false} RowsMembers(es: seq<InsertEvent>, row: nat)
    ensures row in Rows(es) <==> exists i :: 0 <= i < |es| && es[i].startRow <= row < es[i].endRow
  {
    hide Block;
    if es != [] {
      var n := |es| - 1;
      RowsMembers(es[..n], row);
      BlockMembers(es[n], row);
      assert Rows(es) == Rows(es[..n]) + Block(es[n]);
      hide Rows;
      if row in Rows(es[..n]) {
        var i :| 0 <= i < n && es[..n][i].startRow <= row < es[..n][i].endRow;
        assert es[i].startRow <= row < es[i].endRow;
      }
      if i :| 0 <= i < |es| && es[i].startRow <= row < es[i].endRow {
        assert i < n ==> es[..n][i] == es[i];
      }
    }
  }

  lemma BlockMembers(e: InsertEvent, row: nat)
    ensures row in Block(e) <==> e.startRow <= row < e.endRow
  {
    if e.startRow <= row < e.endRow {
      assert Block(e)[row - e.startRow] == row;
    }
  }

  /** No row is listed twice exactly when the successful events' blocks do not overlap. */
  lemma {:induction false} DistinctIffDisjoint(es: seq<InsertEvent>)
    ensures NoRepeats(Rows(es)) <==> DisjointBlocks(es)
  {
    if es != [] {
      var n := |es| - 1;
      var init := es[..n];
      DistinctIffDisjoint(init);
      if DisjointBlocks(es) {
        DisjointLast(es);
      }
      if NoRepeats(Rows(es)) {
        DistinctLast(es);
      }
    }
  }

  lemma DisjointLast(es: seq<InsertEvent>)
    requires es != [] && DisjointBlocks(es) && NoRepeats(Rows(es[..|es| - 1]))
    ensures NoRepeats(Rows(es))
  {
    var n := |es| - 1;
    var init := Rows(es[..n]);
    forall r | r in init
      ensures r !in Block(es[n])
    {
      RowsMembers(es[..n], r);
      BlockMembers(es[n], r);
    }
    forall i, j | 0 <= i < j < |Rows(es)|
      ensures Rows(es)[i] != Rows(es)[j]
    {
      if i < |init| <= j {
        assert Rows(es)[i] in init;
        assert Rows(es)[j] == Block(es[n])[j - |init|];
      }
    }
  }

  lemma DistinctLast(es: seq<InsertEvent>)
    requires es != [] && NoRepeats(Rows(es)) && (NoRepeats(Rows(es[..|es| - 1])) ==> DisjointBlocks(es[..|es| - 1]))
    ensures DisjointBlocks(es)
  {
    var n := |es| - 1;
    DistinctPrefix(Rows(es[..n]), Block(es[n]));
    assert DisjointBlocks(es[..n]);
    hide Rows;
    forall i, j | 0 <= i < j < |es|
      ensures Disjoint(es[i], es[j])
    {
      if j < n {
        assert es[..n][i] == es[i] && es[..n][j] == es[j];
      } else {
        DistinctPair(es, i);
      }
    }
  }

  lemma DistinctPrefix(a: seq<nat>, b: seq<nat>)
    requires NoRepeats(a + b)
    ensures NoRepeats(a)
    ensures forall r :: r in a ==> r !in b
  {
    forall i, j | 0 <= i < j < |a|
      ensures a[i] != a[j]
    {
      assert (a + b)[i] == a[i] && (a + b)[j] == a[j];
    }
    forall r | r in a
      ensures r !in b
    {
      var p :| 0 <= p < |a| && a[p] == r;
      forall q | 0 <= q < |b|
        ensures b[q] != r
      {
        assert (a + b)[p] == r && (a + b)[|a| + q] == b[q];
      }
    }
  }

  lemma DistinctPair(es: seq<InsertEvent>, i: nat)
    requires i < |es| - 1 && NoRepeats(Rows(es))
    ensures Disjoint(es[i], es[|es| - 1])
  {
    var n := |es| - 1;
    DistinctPrefix(Rows(es[..n]), Block(es[n]));
    var row := if es[i].startRow < es[n].startRow then es[n].startRow else es[i].startRow;
    assert es[..n][i] == es[i];
    RowsMembers(es[..n], row);
    BlockMembers(es[n], row);
  }

  // ------------------------------------------------- what was visible, row by row

  /** Was the row inserted, by an insert that had succeeded by the cutoff? */
  ghost predicate RowWasIn(events: seq<InsertEvent>, cutoff: int, row: int)
  {
    exists e :: e in events && e.ok && e.completedAt <= cutoff && e.startRow <= row < e.endRow
  }

  /** How often. */
  ghost function TimesIn(events: seq<InsertEvent>, cutoff: int, row: nat): nat
  {
    if events == [] then 0
    else
      var e := events[|events| - 1];
      TimesIn(events[..|events| - 1], cutoff, row)
      + if e.ok && e.completedAt <= cutoff && e.startRow <= row < e.endRow then 1 else 0
  }

  lemma {:induction false} TimesInPositive(events: seq<InsertEvent>, cutoff: int, row: nat)
    ensures TimesIn(events, cutoff, row) > 0 <==> RowWasIn(events, cutoff, row)
  {
    if events != [] {
      var init, e := events[..|events| - 1], events[|events| - 1];
      TimesInPositive(init, cutoff, row);
      assert forall x :: x in events <==> x in init || x == e;
    }
  }

  lemma BlockCount(e: InsertEvent, row: nat)
    ensures multiset(Block(e))[row] == if e.startRow <= row < e.endRow then 1 else 0
  {
    BlockMembers(e, row);
    OnceCounts(Block(e), row);
    assert row in multiset(Block(e)) <==> row in Block(e);
  }

  /** The visible rows, as a list, hold every row as often as it was inserted by then. */
  lemma {:induction false} VisibleRowCount(events: seq<InsertEvent>, cutoff: int, row: nat)
    ensures multiset(VisibleRows(events, cutoff))[row] == TimesIn(events, cutoff, row)
  {
    if events != [] {
      var init, e := events[..|events| - 1], events[|events| - 1];
      VisibleRowCount(init, cutoff, row);
      if e.ok && e.completedAt <= cutoff {
        RowsOfSnoc(VisibleEvents(init, cutoff), e);
        assert VisibleRows(events, cutoff) == VisibleRows(init, cutoff) + Block(e);
        BlockCount(e, row);
      }
    }
  }

  lemma VisibleRowWasIn(events: seq<InsertEvent>, cutoff: int, row: nat)
    ensures row in VisibleRows(events, cutoff) <==> RowWasIn(events, cutoff, row)
  {
    VisibleRowCount(events, cutoff, row);
    TimesInPositive(events, cutoff, row);
    assert row in multiset(VisibleRows(events, cutoff)) <==> row in VisibleRows(events, cutoff);
  }
}
