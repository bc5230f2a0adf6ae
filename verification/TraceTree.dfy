/** Span trees: spans kept by id, trees grown from the roots along parent ids that may be
    wrong, repeated or cyclic, and the aggregation of trees by name path. */
module TraceTree {
  import opened Basics

  datatype Span = Span(
      trace: string, id: string, parent: string, name: string, kind: int, start: int, end: int,
      code: Option<int>)

  /** A trace's spans: its dictionary's values, in order of insertion. */
  type Trace = seq<Span>

  ghost predicate DistinctIds(spans: Trace)
  {
    && (forall i, j :: 0 <= i < j < |spans| ==> spans[i].id != spans[j].id)
    && (forall i :: 0 <= i < |spans| ==> spans[i].id != "")
  }

  // ------------------------------------------------------------ span dictionary

  function Position(spans: Trace, id: string): (i: nat)
    ensures i <= |spans|
    ensures i < |spans| ==> spans[i].id == id
    ensures forall j :: 0 <= j < i ==> spans[j].id != id
  {
    var keys := seq(|spans|, i requires 0 <= i < |spans| => spans[i].id);
    assert forall i :: 0 <= i < |spans| ==> keys[i] == spans[i].id;
    IndexOf(keys, id)
  }

  /** `span_map[sp.span_id] = sp`: a known id keeps its place and takes the new value. */
  function Put(spans: Trace, sp: Span): Trace
  {
    var i := Position(spans, sp.id);
    if i < |spans| then spans[i := sp] else spans + [sp]
  }

  /** What one trace's dictionary holds after all spans have been read. */
  function Kept(all: seq<Span>, trace: string): Trace
  {
    if all == [] then []
    else
      var before := Kept(all[..|all| - 1], trace);
      var sp := all[|all| - 1];
      if sp.trace == trace && trace != "" && sp.id != "" then Put(before, sp) else before
  }

  method BuildTraces(all: seq<Span>) returns (traces: map<string, Trace>)
    ensures forall t :: t in traces ==> traces[t] == Kept(all, t) && traces[t] != []
    ensures forall t :: t !in traces ==> Kept(all, t) == []
  {
    traces := map[];
    for i := 0 to |all|
      invariant forall t :: t in traces ==> traces[t] == Kept(all[..i], t) && traces[t] != []
      invariant forall t :: t !in traces ==> Kept(all[..i], t) == []
    {
      assert all[..i + 1][..i] == all[..i];
      var sp := all[i];
      if sp.trace != "" && sp.id != "" {
        var known := if sp.trace in traces then traces[sp.trace] else [];
        traces := traces[sp.trace := Put(known, sp)];
      }
    }
    assert all[..|all|] == all;
  }

  lemma PutKeeps(spans: Trace, sp: Span)
    requires DistinctIds(spans) && sp.id != ""
    ensures DistinctIds(Put(spans, sp))
    ensures forall x :: x in Put(spans, sp) <==> x == sp || (x in spans && x.id != sp.id)
  {
    var i := Position(spans, sp.id);
    var after := Put(spans, sp);
    forall x | x in spans && x.id != sp.id
      ensures x in after
    {
      var j :| 0 <= j < |spans| && spans[j] == x;
      assert after[j] == x;
    }
    assert if i < |spans| then after[i] == sp else after[|spans|] == sp;
  }

  /** A span is kept exactly when it is the last one read with its trace and id. */
  lemma {:induction false} KeptIsLast(all: seq<Span>, trace: string)
    requires trace != ""
    ensures DistinctIds(Kept(all, trace))
    ensures forall x :: x in Kept(all, trace) <==> LastOfItsId(all, trace, x)
  {
    if all != [] {
      var n := |all| - 1;
      KeptIsLast(all[..n], trace);
      var sp := all[n];
      if sp.trace == trace && sp.id != "" {
        PutKeeps(Kept(all[..n], trace), sp);
      }
      forall x
        ensures LastOfItsId(all, trace, x) <==>
                if sp.trace == trace && sp.id != "" && sp.id == x.id then x == sp else LastOfItsId(all[..n], trace, x)
      {
        LastStep(all, trace, x);
      }
    }
  }

  ghost predicate LastOfItsId(all: seq<Span>, trace: string, x: Span)
  {
    exists i :: 0 <= i < |all| && LastAt(all, trace, x, i)
  }

  ghost predicate LastAt(all: seq<Span>, trace: string, x: Span, i: nat)
    requires i < |all|
  {
    && all[i] == x && x.trace == trace && x.id != ""
    && forall j :: i < j < |all| ==> all[j].trace != trace || all[j].id != x.id
  }

  lemma LastStep(all: seq<Span>, trace: string, x: Span)
    requires all != []
    ensures
      var n := |all| - 1;
      var sp := all[n];
      LastOfItsId(all, trace, x) <==>
      if sp.trace == trace && sp.id != "" && sp.id == x.id then x == sp else LastOfItsId(all[..n], trace, x)
  {
    var n := |all| - 1;
    var sp := all[n];
    if sp.trace == trace && sp.id != "" && sp.id == x.id {
      if x == sp {
        assert LastAt(all, trace, x, n);
      }
    } else {
      if LastOfItsId(all[..n], trace, x) {
        var i :| 0 <= i < n && LastAt(all[..n], trace, x, i);
        assert LastAt(all, trace, x, i);
      }
      if LastOfItsId(all, trace, x) {
        var i :| 0 <= i < |all| && LastAt(all, trace, x, i);
        assert LastAt(all[..n], trace, x, i);
      }
    }
  }

  /** The first span with this id is read at `i`. */
  ghost predicate FirstAt(all: seq<Span>, trace: string, id: string, i: nat)
  {
    && i < |all| && all[i].trace == trace && all[i].id == id
    && forall j :: 0 <= j < i ==> all[j].trace != trace || all[j].id != id
  }

  ghost predicate Read(all: seq<Span>, trace: string, id: string)
  {
    exists i: nat :: FirstAt(all, trace, id, i)
  }

  ghost predicate ReadBefore(all: seq<Span>, trace: string, a: string, b: string)
  {
    exists i: nat, j: nat :: i < j && FirstAt(all, trace, a, i) && FirstAt(all, trace, b, j)
  }

  /** The dictionary is in the order in which ids were first read. */
  ghost predicate InReadOrder(all: seq<Span>, trace: string, spans: Trace)
  {
    && (forall a, b :: 0 <= a < b < |spans| ==> ReadBefore(all, trace, spans[a].id, spans[b].id))
    && (forall a :: 0 <= a < |spans| ==> Read(all, trace, spans[a].id))
  }

  lemma StillReadBefore(all: seq<Span>, trace: string, a: string, b: string, sp: Span)
    ensures Read(all, trace, a) ==> Read(all + [sp], trace, a)
    ensures ReadBefore(all, trace, a, b) ==> ReadBefore(all + [sp], trace, a, b)
  {
    if i: nat :| FirstAt(all, trace, a, i) {
      assert FirstAt(all + [sp], trace, a, i);
    }
    if i: nat, j: nat :| i < j && FirstAt(all, trace, a, i) && FirstAt(all, trace, b, j) {
      assert FirstAt(all + [sp], trace, a, i) && FirstAt(all + [sp], trace, b, j);
    }
  }

  lemma NewReadLast(all: seq<Span>, trace: string, a: string, sp: Span)
    requires Read(all, trace, a) && FirstAt(all + [sp], trace, sp.id, |all|)
    ensures ReadBefore(all + [sp], trace, a, sp.id) && Read(all + [sp], trace, sp.id)
  {
    var i: nat :| FirstAt(all, trace, a, i);
    assert FirstAt(all + [sp], trace, a, i) && i < |all|;
  }

  lemma {:induction false} KeptInReadOrder(all: seq<Span>, trace: string)
    requires trace != ""
    ensures InReadOrder(all, trace, Kept(all, trace))
  {
    if all != [] {
      var front, sp := all[..|all| - 1], all[|all| - 1];
      KeptInReadOrder(front, trace);
      assert all == front + [sp];
      var before := Kept(front, trace);
      forall a, b | 0 <= a < |before| && 0 <= b < |before|
        ensures Read(all, trace, before[a].id)
        ensures a < b ==> ReadBefore(all, trace, before[a].id, before[b].id)
      {
        StillReadBefore(front, trace, before[a].id, before[b].id, sp);
      }
      if sp.trace == trace && sp.id != "" {
        PutInReadOrder(front, trace, before, sp);
      }
    }
  }

  lemma PutInReadOrder(front: seq<Span>, trace: string, before: Trace, sp: Span)
    requires trace != "" && sp.trace == trace && sp.id != "" && before == Kept(front, trace)
    requires InReadOrder(front, trace, before) && InReadOrder(front + [sp], trace, before)
    ensures InReadOrder(front + [sp], trace, Put(before, sp))
  {
    hide Read, ReadBefore, Kept;
    var after, at := Put(before, sp), Position(before, sp.id);
    if at < |before| {
      assert forall a :: 0 <= a < |after| ==> after[a].id == before[a].id;
    } else {
      NewIdFirst(front, trace, sp);
      assert FirstAt(front + [sp], trace, sp.id, |front|);
      ReadHere(front + [sp], trace, sp.id, |front|);
      forall a | 0 <= a < |before|
        ensures ReadBefore(front + [sp], trace, before[a].id, sp.id)
      {
        NewReadLast(front, trace, before[a].id, sp);
      }
    }
  }

  lemma ReadHere(all: seq<Span>, trace: string, id: string, i: nat)
    requires FirstAt(all, trace, id, i)
    ensures Read(all, trace, id)
  {
  }

  lemma NewIdFirst(front: seq<Span>, trace: string, sp: Span)
    requires trace != "" && sp.trace == trace && sp.id != ""
    requires forall j :: 0 <= j < |Kept(front, trace)| ==> Kept(front, trace)[j].id != sp.id
    ensures FirstAt(front + [sp], trace, sp.id, |front|)
  {
    forall j | 0 <= j < |front|
      ensures front[j].trace != trace || front[j].id != sp.id
    {
      ReadIsKept(front, trace, sp.id, j);
    }
  }

  lemma ReadIsKept(all: seq<Span>, trace: string, id: string, j: nat)
    requires trace != "" && id != "" && j < |all|
    ensures all[j].trace == trace && all[j].id == id ==> exists x :: x in Kept(all, trace) && x.id == id
  {
    if all[j].trace == trace && all[j].id == id {
      KeptIsLast(all, trace);
      var l := LastWith(all, trace, id, j);
      assert LastAt(all, trace, all[l], l);
      assert all[l] in Kept(all, trace);
    }
  }

  lemma {:induction false} LastWith(all: seq<Span>, trace: string, id: string, j: nat) returns (l: nat)
    requires j < |all| && all[j].trace == trace && all[j].id == id
    ensures l < |all| && all[l].trace == trace && all[l].id == id
    ensures forall i :: l < i < |all| ==> all[i].trace != trace || all[i].id != id
    decreases |all| - j
  {
    if i :| j < i < |all| && all[i].trace == trace && all[i].id == id {
      l := LastWith(all, trace, id, i);
    } else {
      l := j;
    }
  }

  // ------------------------------------------------------------ parent chains

  predicate HasId(spans: Trace, id: string)
  {
    exists i :: 0 <= i < |spans| && spans[i].id == id
  }

  predicate IsRoot(spans: Trace, sp: Span)
  {
    sp.parent == "" || !HasId(spans, sp.parent)
  }

  /** Has the span no parent in the trace? */
  ghost predicate Parentless(spans: Trace, x: Span)
  {
    x.parent == "" || forall y :: y in spans ==> y.id != x.parent
  }

  ghost predicate InTrace(spans: Trace, id: string)
  {
    id != "" && exists y :: y in spans && y.id == id
  }

  lemma RootIsParentless(spans: Trace, x: Span)
    ensures IsRoot(spans, x) <==> Parentless(spans, x)
  {
    if i :| 0 <= i < |spans| && spans[i].id == x.parent {
      assert spans[i] in spans;
    }
  }

  /** A chain of spans down from one without a parent. */
  ghost predicate Path(spans: Trace, p: seq<Span>)
  {
    && (forall i :: 0 <= i < |p| ==> p[i] in spans)
    && (p != [] ==> Parentless(spans, p[0]))
    && (forall i, j :: 0 <= i && j == i + 1 < |p| ==> p[j].parent == p[i].id)
  }

  /** Following the span's parents ends at one without a parent. */
  ghost predicate Rooted(spans: Trace, x: Span)
  {
    exists p :: PathTo(spans, p, x)
  }

  ghost predicate PathTo(spans: Trace, p: seq<Span>, x: Span)
  {
    Path(spans, p) && p != [] && p[|p| - 1] == x
  }

  lemma SameId(spans: Trace, x: Span, y: Span)
    requires DistinctIds(spans) && x in spans && y in spans && x.id == y.id
    ensures x == y
  {
  }

  lemma PathFront(spans: Trace, p: seq<Span>, n: nat)
    requires Path(spans, p) && n <= |p|
    ensures Path(spans, p[..n])
  {
  }

  lemma InnerIsNoRoot(spans: Trace, p: seq<Span>, i: nat)
    requires DistinctIds(spans) && Path(spans, p) && 0 < i < |p|
    ensures !Parentless(spans, p[i]) && p[i].parent == p[i - 1].id
  {
    assert p[i - 1] in spans;
  }

  /** There is only one way down to a span. */
  lemma {:induction false} PathUnique(spans: Trace, p: seq<Span>, q: seq<Span>, x: Span)
    requires DistinctIds(spans) && PathTo(spans, p, x) && PathTo(spans, q, x)
    ensures p == q
  {
    var n, m := |p| - 1, |q| - 1;
    if n > 0 {
      InnerIsNoRoot(spans, p, n);
    }
    if m > 0 {
      InnerIsNoRoot(spans, q, m);
    }
    if n > 0 && m > 0 {
      SameId(spans, p[n - 1], q[m - 1]);
      PathFront(spans, p, n);
      PathFront(spans, q, m);
      PathUnique(spans, p[..n], q[..m], p[n - 1]);
      assert p == p[..n] + [x] && q == q[..m] + [x];
    } else {
      assert n == m == 0;
      assert p == [x] && q == [x];
    }
  }

  lemma PathDistinct(spans: Trace, p: seq<Span>, i: nat, j: nat)
    requires DistinctIds(spans) && Path(spans, p) && i < j < |p|
    ensures p[i] != p[j]
  {
    PathFront(spans, p, i + 1);
    PathFront(spans, p, j + 1);
    if p[i] == p[j] {
      PathUnique(spans, p[..i + 1], p[..j + 1], p[i]);
    }
  }

  lemma {:induction false} DistinctFits(p: seq<Span>, s: set<Span>)
    requires forall i :: 0 <= i < |p| ==> p[i] in s
    requires forall i, j :: 0 <= i < j < |p| ==> p[i] != p[j]
    ensures |p| <= |s|
  {
    if p != [] {
      var n := |p| - 1;
      DistinctFits(p[..n], s - {p[n]});
    }
  }

  lemma {:induction false} FewMembers(spans: Trace)
    ensures |set x | x in spans| <= |spans|
  {
    if spans != [] {
      var n := |spans| - 1;
      FewMembers(spans[..n]);
      assert (set x | x in spans) == (set x | x in spans[..n]) + {spans[n]};
    }
  }

  /** No chain from a root is longer than the trace: this is what ends the recursion, however
      the other parents run in circles. */
  lemma PathIsShort(spans: Trace, p: seq<Span>)
    requires DistinctIds(spans) && Path(spans, p)
    ensures |p| <= |spans|
  {
    forall i, j | 0 <= i < j < |p|
      ensures p[i] != p[j]
    {
      PathDistinct(spans, p, i, j);
    }
    DistinctFits(p, set x | x in spans);
    FewMembers(spans);
  }

  // ------------------------------------------------------------------- sorting

  ghost predicate ByStart(s: seq<Span>)
  {
    forall i, j :: 0 <= i < j < |s| ==> s[i].start <= s[j].start
  }

  function InsertByStart(s: seq<Span>, x: Span): (r: seq<Span>)
    ensures multiset(r) == multiset(s) + multiset{x}
  {
    if s == [] || s[|s| - 1].start <= x.start then s + [x]
    else
      var front := s[..|s| - 1];
      assert s == front + [s[|s| - 1]];
      InsertByStart(front, x) + [s[|s| - 1]]
  }

  lemma {:induction false} InsertKeepsOrder(s: seq<Span>, x: Span)
    requires ByStart(s)
    ensures ByStart(InsertByStart(s, x))
    ensures forall i :: 0 <= i < |InsertByStart(s, x)| ==>
      InsertByStart(s, x)[i].start <= (if s == [] || s[|s| - 1].start <= x.start then x.start else s[|s| - 1].start)
  {
    if s != [] && s[|s| - 1].start > x.start {
      InsertKeepsOrder(s[..|s| - 1], x);
    }
  }

  /** The stable sort by start time. */
  function SortByStart(s: seq<Span>): (r: seq<Span>)
    ensures multiset(r) == multiset(s)
  {
    if s == [] then []
    else
      assert s == s[..|s| - 1] + [s[|s| - 1]];
      InsertByStart(SortByStart(s[..|s| - 1]), s[|s| - 1])
  }

  lemma {:induction false} SortOrders(s: seq<Span>)
    ensures ByStart(SortByStart(s))
  {
    if s != [] {
      SortOrders(s[..|s| - 1]);
      InsertKeepsOrder(SortByStart(s[..|s| - 1]), s[|s| - 1]);
    }
  }

  // -------------------------------------------------------------------- trees

  datatype Node = Node(span: Span, children: seq<Node>)

  function RootsOf(spans: Trace, n: nat): seq<Span>
    requires n <= |spans|
  {
    if n == 0 then []
    else RootsOf(spans, n - 1) + (if IsRoot(spans, spans[n - 1]) then [spans[n - 1]] else [])
  }

  /** The spans among the first `n` filed under a parent. */
  function ChildrenOf(spans: Trace, id: string, n: nat): seq<Span>
    requires n <= |spans|
  {
    if n == 0 then []
    else ChildrenOf(spans, id, n - 1) +
         (if !IsRoot(spans, spans[n - 1]) && spans[n - 1].parent == id then [spans[n - 1]] else [])
  }

  lemma {:induction false} RootsAre(spans: Trace, n: nat, x: Span)
    requires n <= |spans|
    ensures x in RootsOf(spans, n) <==> x in spans[..n] && IsRoot(spans, x)
  {
    if n > 0 {
      RootsAre(spans, n - 1, x);
      assert spans[..n] == spans[..n - 1] + [spans[n - 1]];
    }
  }

  lemma {:induction false} ChildrenAre(spans: Trace, id: string, n: nat, x: Span)
    requires n <= |spans|
    ensures x in ChildrenOf(spans, id, n) <==> x in spans[..n] && !IsRoot(spans, x) && x.parent == id
  {
    if n > 0 {
      ChildrenAre(spans, id, n - 1, x);
      assert spans[..n] == spans[..n - 1] + [spans[n - 1]];
    }
  }

  lemma {:induction false} NoRepeatsInChildren(spans: Trace, id: string, n: nat)
    requires n <= |spans| && DistinctIds(spans)
    ensures NoRepeats(ChildrenOf(spans, id, n)) && NoRepeats(RootsOf(spans, n))
  {
    hide IsRoot;
    if n > 0 {
      NoRepeatsInChildren(spans, id, n - 1);
      ChildrenAre(spans, id, n - 1, spans[n - 1]);
      RootsAre(spans, n - 1, spans[n - 1]);
      NotBefore(spans, n - 1);
      NoRepeatAdded(ChildrenOf(spans, id, n - 1), spans[n - 1]);
      NoRepeatAdded(RootsOf(spans, n - 1), spans[n - 1]);
      assert RootsOf(spans, n - 1) + [] == RootsOf(spans, n - 1);
      assert ChildrenOf(spans, id, n - 1) + [] == ChildrenOf(spans, id, n - 1);
    }
  }

  lemma NotBefore(spans: Trace, n: nat)
    requires n < |spans| && DistinctIds(spans)
    ensures spans[n] !in spans[..n]
  {
  }

  lemma NoRepeatAdded(s: seq<Span>, x: Span)
    requires NoRepeats(s) && x !in s
    ensures NoRepeats(s + [x])
  {
  }

  /** Each of these spans continues the chain `p`, and they are all that do. */
  ghost predicate Continuations(spans: Trace, p: seq<Span>, kids: seq<Span>)
  {
    NoRepeats(kids) && forall x :: x in kids <==> Path(spans, p + [x])
  }

  /** The spans that follow the chain `p`: the roots, or the last span's children. */
  function Next(spans: Trace, p: seq<Span>): seq<Span>
  {
    SortByStart(if p == [] then RootsOf(spans, |spans|) else ChildrenOf(spans, p[|p| - 1].id, |spans|))
  }

  lemma NextContinues(spans: Trace, p: seq<Span>)
    requires DistinctIds(spans) && Path(spans, p)
    ensures Continuations(spans, p, Next(spans, p))
  {
    var found := if p == [] then RootsOf(spans, |spans|) else ChildrenOf(spans, p[|p| - 1].id, |spans|);
    NoRepeatsInChildren(spans, if p == [] then "" else p[|p| - 1].id, |spans|);
    MultisetNoRepeats(found, Next(spans, p));
    assert spans[..|spans|] == spans;
    forall x
      ensures x in found <==> Path(spans, p + [x])
    {
      OneMore(spans, p, x);
      if p == [] {
        RootsAre(spans, |spans|, x);
      } else {
        ChildrenAre(spans, p[|p| - 1].id, |spans|, x);
      }
    }
  }

  lemma OneMore(spans: Trace, p: seq<Span>, x: Span)
    requires DistinctIds(spans) && Path(spans, p)
    ensures Path(spans, p + [x]) <==>
            x in spans && (if p == [] then IsRoot(spans, x) else !IsRoot(spans, x) && x.parent == p[|p| - 1].id)
  {
    var q := p + [x];
    assert q[|p|] == x;
    RootIsParentless(spans, x);
    if p != [] && x in spans && x.parent == p[|p| - 1].id {
      assert p[|p| - 1] in spans;
    }
    if p != [] && Path(spans, q) {
      assert q[|p| - 1] == p[|p| - 1];
    }
  }

  /** `make_node` for each of `kids`, the chain of spans above them being `p`. */
  function Grow(spans: Trace, ghost p: seq<Span>, kids: seq<Span>): seq<Node>
    requires DistinctIds(spans) && Path(spans, p)
    requires forall x :: x in kids ==> Path(spans, p + [x])
    decreases |spans| - |p|, |kids|
  {
    if kids == [] then []
    else
      var x := kids[0];
      var below := SortByStart(ChildrenOf(spans, x.id, |spans|));
      assert Path(spans, p + [x]);
      PathIsShort(spans, p + [x]);
      NextContinues(spans, p + [x]);
      [Node(x, Grow(spans, p + [x], below))] + Grow(spans, p, kids[1..])
  }

  function Forest(spans: Trace): seq<Node>
    requires DistinctIds(spans)
  {
    NextContinues(spans, []);
    Grow(spans, [], SortByStart(RootsOf(spans, |spans|)))
  }

  function Filed(children: map<string, seq<Span>>, id: string): seq<Span>
  {
    if id in children then children[id] else []
  }

  ghost predicate FiledUpTo(spans: Trace, n: nat, children: map<string, seq<Span>>, roots: seq<Span>)
  {
    n <= |spans| && roots == RootsOf(spans, n) && forall id :: Filed(children, id) == ChildrenOf(spans, id, n)
  }

  lemma RootFiled(spans: Trace, n: nat, children: map<string, seq<Span>>, roots: seq<Span>)
    requires n < |spans| && FiledUpTo(spans, n, children, roots) && IsRoot(spans, spans[n])
    ensures FiledUpTo(spans, n + 1, children, roots + [spans[n]])
  {
    hide IsRoot;
    forall id
      ensures Filed(children, id) == ChildrenOf(spans, id, n + 1)
    {
      assert ChildrenOf(spans, id, n) + [] == ChildrenOf(spans, id, n);
    }
  }

  lemma ChildFiled(spans: Trace, n: nat, children: map<string, seq<Span>>, roots: seq<Span>)
    requires n < |spans| && FiledUpTo(spans, n, children, roots) && !IsRoot(spans, spans[n])
    ensures
      var sp := spans[n];
      FiledUpTo(spans, n + 1, children[sp.parent := Filed(children, sp.parent) + [sp]], roots)
  {
    hide IsRoot;
    var sp := spans[n];
    var after := children[sp.parent := Filed(children, sp.parent) + [sp]];
    assert RootsOf(spans, n) + [] == RootsOf(spans, n);
    forall id
      ensures Filed(after, id) == ChildrenOf(spans, id, n + 1)
    {
      assert Filed(children, id) == ChildrenOf(spans, id, n);
      assert ChildrenOf(spans, id, n) + [] == ChildrenOf(spans, id, n);
    }
  }

  /** The filing loop of `build_tree`. */
  method File(spans: Trace) returns (children: map<string, seq<Span>>, roots: seq<Span>)
    ensures roots == RootsOf(spans, |spans|)
    ensures forall id :: Filed(children, id) == ChildrenOf(spans, id, |spans|)
    ensures forall x :: x in roots <==> x in spans && (x.parent == "" || forall y :: y in spans ==> y.id != x.parent)
    ensures forall x, id :: x in Filed(children, id) <==> x in spans && x.parent == id && InTrace(spans, id)
  {
    hide FiledUpTo, InTrace, RootsOf, ChildrenOf, IsRoot;
    children, roots := map[], [];
    NothingFiled(spans);
    for n := 0 to |spans|
      invariant FiledUpTo(spans, n, children, roots)
    {
      var sp := spans[n];
      assert IsRoot(spans, sp) <==> !(sp.parent != "" && HasId(spans, sp.parent)) by { RootTest(spans, sp); }
      if sp.parent != "" && HasId(spans, sp.parent) {
        ChildFiled(spans, n, children, roots);
        children := children[sp.parent := Filed(children, sp.parent) + [sp]];
      } else {
        RootFiled(spans, n, children, roots);
        roots := roots + [sp];
      }
    }
    FiledMembers(spans, children, roots);
  }

  lemma RootTest(spans: Trace, sp: Span)
    ensures IsRoot(spans, sp) <==> !(sp.parent != "" && HasId(spans, sp.parent))
  {
  }

  lemma NothingFiled(spans: Trace)
    ensures FiledUpTo(spans, 0, map[], [])
  {
  }

  lemma FiledMembers(spans: Trace, children: map<string, seq<Span>>, roots: seq<Span>)
    requires FiledUpTo(spans, |spans|, children, roots)
    ensures roots == RootsOf(spans, |spans|)
    ensures forall id :: Filed(children, id) == ChildrenOf(spans, id, |spans|)
    ensures forall x :: x in roots <==> x in spans && (x.parent == "" || forall y :: y in spans ==> y.id != x.parent)
    ensures forall x, id :: x in Filed(children, id) <==> x in spans && x.parent == id && InTrace(spans, id)
  {
    assert spans[..|spans|] == spans;
    forall x
      ensures x in roots <==> x in spans && Parentless(spans, x)
    {
      RootIsParentless(spans, x);
      RootsAre(spans, |spans|, x);
    }
    forall x, id
      ensures x in Filed(children, id) <==> x in spans && x.parent == id && InTrace(spans, id)
    {
      RootIsParentless(spans, x);
      ChildrenAre(spans, id, |spans|, x);
    }
  }

  // ------------------------------------------------------ every span just once

  /** The spans of some trees, each before those below it. */
  function Flatten(nodes: seq<Node>): seq<Span>
  {
    if nodes == [] then [] else [nodes[0].span] + Flatten(nodes[0].children) + Flatten(nodes[1..])
  }

  function Occurrences(x: Span, s: seq<Span>): nat
  {
    multiset(s)[x]
  }

  lemma OccurrencesSplit(x: Span, a: Span, b: seq<Span>, c: seq<Span>)
    ensures Occurrences(x, [a] + b + c) == (if a == x then 1 else 0) + Occurrences(x, b) + Occurrences(x, c)
  {
  }

  /** `kids` are different continuations of the chain `p`. */
  ghost predicate Growable(spans: Trace, p: seq<Span>, kids: seq<Span>)
  {
    && DistinctIds(spans) && Path(spans, p) && NoRepeats(kids)
    && forall y :: y in kids ==> Path(spans, p + [y])
  }

  /** 1 if the chain `q` goes through one of `kids` after `p`. */
  function Through(q: seq<Span>, p: seq<Span>, kids: seq<Span>): nat
  {
    if |q| > |p| && q[..|p|] == p && q[|p|] in kids then 1 else 0
  }

  /** The first of `kids` can be grown in its turn, and so can the others. */
  lemma GrowableParts(spans: Trace, p: seq<Span>, kids: seq<Span>)
    requires Growable(spans, p, kids) && kids != []
    ensures
      var r := p + [kids[0]];
      && |r| <= |spans|
      && Growable(spans, r, Next(spans, r))
      && Continuations(spans, r, Next(spans, r))
    ensures Growable(spans, p, kids[1..])
  {
    var r := p + [kids[0]];
    assert Path(spans, r);
    PathIsShort(spans, r);
    NextContinues(spans, r);
    HeadAndTail(kids, kids[0]);
  }

  lemma CountsSplit(spans: Trace, p: seq<Span>, kids: seq<Span>, x: Span)
    requires Growable(spans, p, kids) && kids != []
    requires Growable(spans, p + [kids[0]], Next(spans, p + [kids[0]]))
    ensures
      var r := p + [kids[0]];
      Occurrences(x, Flatten(Grow(spans, p, kids))) ==
      (if kids[0] == x then 1 else 0) + Occurrences(x, Flatten(Grow(spans, r, Next(spans, r)))) +
      Occurrences(x, Flatten(Grow(spans, p, kids[1..])))
  {
    var r := p + [kids[0]];
    GrowUnfolds(spans, p, kids);
    hide *;
    OccurrencesSplit(x, kids[0], Flatten(Grow(spans, r, Next(spans, r))), Flatten(Grow(spans, p, kids[1..])));
  }

  /** Among the trees grown below a chain, a span whose own chain is `q` appears once if `q`
      goes through one of their roots, and otherwise not at all. */
  lemma {:induction false} GrowCounts(spans: Trace, p: seq<Span>, kids: seq<Span>, q: seq<Span>, x: Span)
    requires Growable(spans, p, kids) && PathTo(spans, q, x)
    ensures Occurrences(x, Flatten(Grow(spans, p, kids))) == Through(q, p, kids)
    decreases |spans| - |p|, |kids|
  {
    if kids == [] {
      assert Grow(spans, p, kids) == [];
    } else {
      var r := p + [kids[0]];
      hide *;
      GrowableParts(spans, p, kids);
      CountsSplit(spans, p, kids, x);
      GrowCounts(spans, r, Next(spans, r), q, x);
      GrowCounts(spans, p, kids[1..], q, x);
      ThroughSplits(spans, p, kids, q, x, Next(spans, r));
    }
  }

  lemma ThroughSplits(spans: Trace, p: seq<Span>, kids: seq<Span>, q: seq<Span>, x: Span, below: seq<Span>)
    requires Growable(spans, p, kids) && kids != [] && PathTo(spans, q, x)
    requires Continuations(spans, p + [kids[0]], below)
    ensures Through(q, p, kids) ==
            (if kids[0] == x then 1 else 0) + Through(q, p + [kids[0]], below) + Through(q, p, kids[1..])
  {
    CountHere(spans, p, kids[0], q, x, below);
    HeadAndTail(kids, if |q| > |p| then q[|p|] else x);
  }

  lemma HeadAndTail(kids: seq<Span>, z: Span)
    requires NoRepeats(kids) && kids != []
    ensures NoRepeats(kids[1..])
    ensures z in kids <==> z == kids[0] || z in kids[1..]
    ensures kids[0] !in kids[1..]
  {
    assert kids == [kids[0]] + kids[1..];
  }

  lemma GrowUnfolds(spans: Trace, p: seq<Span>, kids: seq<Span>)
    requires Growable(spans, p, kids) && kids != []
    requires Growable(spans, p + [kids[0]], Next(spans, p + [kids[0]]))
    ensures Flatten(Grow(spans, p, kids)) ==
            [kids[0]] + Flatten(Grow(spans, p + [kids[0]], Next(spans, p + [kids[0]]))) +
                Flatten(Grow(spans, p, kids[1..]))
  {
    var r := p + [kids[0]];
    var below := Next(spans, r);
    assert r[|r| - 1] == kids[0];
    var first := Node(kids[0], Grow(spans, r, below));
    var others := Grow(spans, p, kids[1..]);
    assert Grow(spans, p, kids) == [first] + others;
    hide Grow, Next, Path, DistinctIds;
    assert ([first] + others)[1..] == others;
  }

  /** The tree below one continuation of `p`. */
  lemma CountHere(spans: Trace, p: seq<Span>, y: Span, q: seq<Span>, x: Span, below: seq<Span>)
    requires DistinctIds(spans) && Path(spans, p + [y]) && PathTo(spans, q, x)
    requires Continuations(spans, p + [y], below)
    ensures (if y == x then 1 else 0) + Through(q, p + [y], below) == Through(q, p, [y])
  {
    var r := p + [y];
    ThroughHere(q, p, y);
    if y == x {
      assert PathTo(spans, r, x);
      PathUnique(spans, q, r, x);
    } else if Through(q, p, [y]) == 1 {
      assert |q| > |r|;
      PathFront(spans, q, |r| + 1);
      assert q[..|r| + 1] == r + [q[|r|]];
    }
  }

  lemma ThroughHere(q: seq<Span>, p: seq<Span>, y: Span)
    ensures Through(q, p, [y]) == 1 <==> |q| > |p| && q[..|p| + 1] == p + [y]
    ensures Through(q, p, [y]) == 1 <==> |q| > |p| && q[..|p|] == p && q[|p|] == y
  {
    if |q| > |p| {
      assert q[..|p| + 1] == q[..|p|] + [q[|p|]];
    }
  }

  /** `build_tree` puts every span whose parents lead to one without a parent in the trace into
      the trees exactly once, and no other span, whatever the parents of the others are. */
  lemma EachRootedSpanOnce(spans: Trace, x: Span)
    requires DistinctIds(spans)
    ensures Occurrences(x, Flatten(Forest(spans))) == if Rooted(spans, x) then 1 else 0
  {
    ForestIsGrown(spans);
    var kids := Next(spans, []);
    if Rooted(spans, x) {
      var q :| PathTo(spans, q, x);
      StartsAtRoot(spans, q, kids);
      hide *;
      GrowCounts(spans, [], kids, q, x);
    } else {
      hide *;
      GrowsRooted(spans, [], kids, x);
      NotIn(x, Flatten(Grow(spans, [], kids)));
    }
  }

  lemma NotIn(x: Span, s: seq<Span>)
    requires x !in s
    ensures Occurrences(x, s) == 0
  {
  }

  lemma ForestIsGrown(spans: Trace)
    requires DistinctIds(spans)
    ensures Path(spans, []) && Continuations(spans, [], Next(spans, []))
    ensures forall y :: y in Next(spans, []) ==> Path(spans, [] + [y])
    ensures Growable(spans, [], Next(spans, []))
    ensures Forest(spans) == Grow(spans, [], Next(spans, []))
  {
    NextContinues(spans, []);
  }

  lemma StartsAtRoot(spans: Trace, q: seq<Span>, kids: seq<Span>)
    requires Path(spans, q) && q != [] && Continuations(spans, [], kids)
    ensures Through(q, [], kids) == 1
  {
    PathFront(spans, q, 1);
    assert q[..1] == [] + [q[0]];
  }

  lemma {:induction false} GrowsRooted(spans: Trace, p: seq<Span>, kids: seq<Span>, x: Span)
    requires DistinctIds(spans) && Path(spans, p) && !Rooted(spans, x)
    requires forall y :: y in kids ==> Path(spans, p + [y])
    ensures x !in Flatten(Grow(spans, p, kids))
    decreases |spans| - |p|, |kids|
  {
    if kids != [] {
      var y := kids[0];
      PathIsShort(spans, p + [y]);
      NextContinues(spans, p + [y]);
      assert PathTo(spans, p + [y], y);
      GrowsRooted(spans, p + [y], Next(spans, p + [y]), x);
      GrowsRooted(spans, p, kids[1..], x);
    }
  }

  // ---------------------------------------------------------- what hangs where

  ghost function Tops(nodes: seq<Node>): seq<Span>
  {
    seq(|nodes|, i requires 0 <= i < |nodes| => nodes[i].span)
  }

  /** `a` is read before `b`. */
  ghost predicate Before(spans: seq<Span>, a: Span, b: Span)
  {
    exists i, j :: 0 <= i < j < |spans| && spans[i] == a && spans[j] == b
  }

  /** By start time, and in the order they were read where that is the same. */
  ghost predicate InOrder(spans: seq<Span>, s: seq<Span>)
  {
    forall i, j :: 0 <= i < j < |s| ==>
      s[i].start < s[j].start || (s[i].start == s[j].start && Before(spans, s[i], s[j]))
  }

  /** Below every node hang, each once and in order, the spans of the trace whose parent it is. */
  ghost predicate WellHung(spans: Trace, node: Node)
  {
    && NoRepeats(Tops(node.children)) && InOrder(spans, Tops(node.children))
    && (forall y :: y in Tops(node.children) <==> y in spans && y.parent == node.span.id)
    && forall i :: 0 <= i < |node.children| ==> WellHung(spans, node.children[i])
  }

  lemma LaterBefore(spans: seq<Span>, a: Span, b: Span, x: Span)
    requires Before(spans, a, b)
    ensures Before(spans + [x], a, b)
  {
    var i, j :| 0 <= i < j < |spans| && spans[i] == a && spans[j] == b;
    assert (spans + [x])[i] == a && (spans + [x])[j] == b;
  }

  lemma LastBefore(spans: seq<Span>, a: Span, x: Span)
    requires a in spans
    ensures Before(spans + [x], a, x)
  {
    var i :| 0 <= i < |spans| && spans[i] == a;
    assert (spans + [x])[i] == a && (spans + [x])[|spans|] == x;
  }

  lemma {:induction false} InsertInOrder(spans: seq<Span>, s: seq<Span>, x: Span)
    requires InOrder(spans, s) && forall y :: y in s ==> y in spans
    ensures InOrder(spans + [x], InsertByStart(s, x))
  {
    forall i, j | 0 <= i < j < |s|
      ensures s[i].start < s[j].start || (s[i].start == s[j].start && Before(spans + [x], s[i], s[j]))
    {
      if s[i].start == s[j].start {
        LaterBefore(spans, s[i], s[j], x);
      }
    }
    if s == [] || s[|s| - 1].start <= x.start {
      forall i | 0 <= i < |s|
        ensures s[i].start <= x.start && Before(spans + [x], s[i], x)
      {
        assert s[i] in s;
        LastBefore(spans, s[i], x);
        assert i < |s| - 1 ==> s[i].start <= s[|s| - 1].start;
      }
    } else {
      var front, last := s[..|s| - 1], s[|s| - 1];
      InsertInOrder(spans, front, x);
      var r := InsertByStart(front, x);
      forall i | 0 <= i < |r|
        ensures r[i].start < last.start || (r[i].start == last.start && Before(spans + [x], r[i], last))
      {
        assert r[i] in multiset(front) + multiset{x};
        if r[i] != x {
          var k :| 0 <= k < |front| && front[k] == r[i];
        }
      }
    }
  }

  lemma {:induction false} SortInOrder(s: seq<Span>)
    ensures InOrder(s, SortByStart(s))
  {
    if s != [] {
      var n := |s| - 1;
      SortInOrder(s[..n]);
      assert s == s[..n] + [s[n]];
      forall y | y in SortByStart(s[..n])
        ensures y in s[..n]
      {
        assert y in multiset(SortByStart(s[..n]));
      }
      InsertInOrder(s[..n], SortByStart(s[..n]), s[n]);
    }
  }

  /** Filing keeps the order in which spans were read. */
  lemma {:induction false} FiledInOrder(spans: Trace, id: string, n: nat)
    requires n <= |spans|
    ensures forall i, j :: 0 <= i < j < |ChildrenOf(spans, id, n)| ==>
        Before(spans[..n], ChildrenOf(spans, id, n)[i], ChildrenOf(spans, id, n)[j])
    ensures forall i, j :: 0 <= i < j < |RootsOf(spans, n)| ==>
        Before(spans[..n], RootsOf(spans, n)[i], RootsOf(spans, n)[j])
  {
    if n > 0 {
      var kids, roots, x := ChildrenOf(spans, id, n - 1), RootsOf(spans, n - 1), spans[n - 1];
      FiledInOrder(spans, id, n - 1);
      assert spans[..n] == spans[..n - 1] + [x];
      forall i | 0 <= i < |kids|
        ensures kids[i] in spans[..n - 1]
      {
        ChildrenAre(spans, id, n - 1, kids[i]);
      }
      forall i | 0 <= i < |roots|
        ensures roots[i] in spans[..n - 1]
      {
        RootsAre(spans, n - 1, roots[i]);
      }
      OneMoreInOrder(spans[..n - 1], kids, x);
      OneMoreInOrder(spans[..n - 1], roots, x);
      hide Before, IsRoot;
    }
  }

  lemma OneMoreInOrder(spans: seq<Span>, s: seq<Span>, x: Span)
    requires forall i, j :: 0 <= i < j < |s| ==> Before(spans, s[i], s[j])
    requires forall i :: 0 <= i < |s| ==> s[i] in spans
    ensures forall i, j :: 0 <= i < j < |s| ==> Before(spans + [x], s[i], s[j])
    ensures forall i, j :: 0 <= i < j < |s + [x]| ==> Before(spans + [x], (s + [x])[i], (s + [x])[j])
  {
    forall i, j | 0 <= i < j < |s|
      ensures Before(spans + [x], s[i], s[j])
    {
      LaterBefore(spans, s[i], s[j], x);
    }
    forall i | 0 <= i < |s|
      ensures Before(spans + [x], s[i], x)
    {
      LastBefore(spans, s[i], x);
    }
  }

  lemma SubOrder(spans: seq<Span>, found: seq<Span>, s: seq<Span>)
    requires InOrder(found, s)
    requires forall i, j :: 0 <= i < j < |found| ==> Before(spans, found[i], found[j])
    ensures InOrder(spans, s)
  {
    forall i, j | 0 <= i < j < |s|
      ensures s[i].start < s[j].start || (s[i].start == s[j].start && Before(spans, s[i], s[j]))
    {
      if s[i].start == s[j].start {
        var a, b :| 0 <= a < b < |found| && found[a] == s[i] && found[b] == s[j];
      }
    }
  }

  lemma NextInOrder(spans: Trace, p: seq<Span>)
    ensures InOrder(spans, Next(spans, p))
  {
    var id := if p == [] then "" else p[|p| - 1].id;
    var found := if p == [] then RootsOf(spans, |spans|) else ChildrenOf(spans, id, |spans|);
    FiledInOrder(spans, id, |spans|);
    assert spans[..|spans|] == spans;
    hide Before;
    SortInOrder(found);
    SubOrder(spans, found, Next(spans, p));
  }

  lemma {:induction false} GrownWell(spans: Trace, p: seq<Span>, kids: seq<Span>)
    requires DistinctIds(spans) && Path(spans, p) && forall y :: y in kids ==> Path(spans, p + [y])
    ensures Tops(Grow(spans, p, kids)) == kids
    ensures forall i :: 0 <= i < |kids| ==> WellHung(spans, Grow(spans, p, kids)[i])
    decreases |spans| - |p|, |kids|
  {
    if kids != [] {
      var r := p + [kids[0]];
      assert Path(spans, r);
      PathIsShort(spans, r);
      NextContinues(spans, r);
      var below := Next(spans, r);
      assert r[|r| - 1] == kids[0];
      GrownWell(spans, r, below);
      GrownWell(spans, p, kids[1..]);
      var first, others := Node(kids[0], Grow(spans, r, below)), Grow(spans, p, kids[1..]);
      assert Grow(spans, p, kids) == [first] + others;
      NextInOrder(spans, r);
      ChildrenBelow(spans, r, below);
      hide *;
      HungFirst(spans, first, others, kids, below);
    }
  }

  lemma HungFirst(spans: Trace, first: Node, others: seq<Node>, kids: seq<Span>, below: seq<Span>)
    requires kids != [] && first.span == kids[0] && Tops(others) == kids[1..] && Tops(first.children) == below
    requires NoRepeats(below) && InOrder(spans, below)
    requires forall y :: y in below <==> y in spans && y.parent == kids[0].id
    requires forall i :: 0 <= i < |below| ==> WellHung(spans, first.children[i])
    requires forall i :: 0 <= i < |others| ==> WellHung(spans, others[i])
    ensures Tops([first] + others) == kids
    ensures forall i :: 0 <= i < |kids| ==> WellHung(spans, ([first] + others)[i])
  {
    hide InOrder, NoRepeats;
    assert |Tops(first.children)| == |first.children|;
    assert WellHung(spans, first);
    assert kids == [kids[0]] + kids[1..];
    assert |Tops(others)| == |others|;
  }

  lemma ChildrenBelow(spans: Trace, r: seq<Span>, below: seq<Span>)
    requires DistinctIds(spans) && Path(spans, r) && r != [] && Continuations(spans, r, below)
    ensures forall y :: y in below <==> y in spans && y.parent == r[|r| - 1].id
  {
    var x := r[|r| - 1];
    assert x in spans && x.id != "";
    forall y
      ensures y in below <==> y in spans && y.parent == x.id
    {
      OneMore(spans, r, y);
      RootIsParentless(spans, y);
    }
  }

  /** The trees: on top, in order and each once, the spans without a parent in the trace, and
      below every span, at every depth, those whose parent it is. */
  lemma ForestShape(spans: Trace)
    requires DistinctIds(spans)
    ensures NoRepeats(Tops(Forest(spans))) && InOrder(spans, Tops(Forest(spans)))
    ensures forall x :: x in Tops(Forest(spans)) <==>
        x in spans && (x.parent == "" || forall y :: y in spans ==> y.id != x.parent)
    ensures forall i :: 0 <= i < |Forest(spans)| ==> WellHung(spans, Forest(spans)[i])
  {
    ForestIsGrown(spans);
    NextInOrder(spans, []);
    GrownWell(spans, [], Next(spans, []));
    forall x
      ensures x in Next(spans, []) <==> x in spans && Parentless(spans, x)
    {
      OneMore(spans, [], x);
      RootIsParentless(spans, x);
    }
  }

  /** Spans whose parents never leave them, such as a cycle, are in no tree. */
  lemma CyclesAreDropped(spans: Trace, loop: set<Span>, x: Span)
    requires DistinctIds(spans) && x in loop
    requires forall y :: y in loop ==> !Parentless(spans, y) && forall z :: z in spans && z.id == y.parent ==> z in loop
    ensures x !in Flatten(Forest(spans))
  {
    if Rooted(spans, x) {
      var q :| PathTo(spans, q, x);
      StaysInside(spans, loop, q, |q| - 1);
      assert false;
    }
    EachRootedSpanOnce(spans, x);
  }

  lemma {:induction false} StaysInside(spans: Trace, loop: set<Span>, q: seq<Span>, i: nat)
    requires Path(spans, q) && i < |q| && q[i] in loop
    requires forall y :: y in loop ==> !Parentless(spans, y) && forall z :: z in spans && z.id == y.parent ==> z in loop
    ensures false
  {
    if i > 0 {
      assert q[i - 1] in spans && q[i].parent == q[i - 1].id;
      StaysInside(spans, loop, q, i - 1);
    }
  }

  // -------------------------------------------------------------- aggregation

  datatype Stats = Stats(durations: seq<int>, traces: set<string>, kinds: multiset<int>, codes: multiset<int>)

  const NOTHING := Stats([], {}, multiset{}, multiset{})

  function Add(s: Stats, sp: Span): Stats
  {
    Stats(s.durations + [if sp.end > sp.start then sp.end - sp.start else 0],
          s.traces + {sp.trace}, s.kinds + multiset{sp.kind},
          s.codes + multiset{if sp.code.Some? then sp.code.value else -1})
  }

  function AddAll(s: Stats, spans: seq<Span>): Stats
    decreases spans
  {
    if spans == [] then s else AddAll(Add(s, spans[0]), spans[1..])
  }

  lemma {:induction false} AddInTurn(s: Stats, a: seq<Span>, b: seq<Span>)
    ensures AddAll(s, a + b) == AddAll(AddAll(s, a), b)
    decreases a
  {
    if a == [] {
      assert a + b == b;
    } else {
      assert (a + b)[1..] == a[1..] + b;
      AddInTurn(Add(s, a[0]), a[1..], b);
    }
  }

  ghost function Durations(spans: seq<Span>): seq<int>
  {
    seq(|spans|, i requires 0 <= i < |spans| =>
      if spans[i].end > spans[i].start then spans[i].end - spans[i].start else 0)
  }

  ghost function Kinds(spans: seq<Span>): seq<int>
  {
    seq(|spans|, i requires 0 <= i < |spans| => spans[i].kind)
  }

  /** A missing status code is counted as -1. */
  ghost function Codes(spans: seq<Span>): seq<int>
  {
    seq(|spans|, i requires 0 <= i < |spans| => match spans[i].code case None => -1 case Some(code) => code)
  }

  ghost function TraceIds(spans: seq<Span>): set<string>
  {
    set sp | sp in spans :: sp.trace
  }

  /** `t` is `s` with some spans recorded. */
  ghost predicate Records(s: Stats, t: Stats, spans: seq<Span>)
  {
    && t.durations == s.durations + Durations(spans)
    && t.traces == s.traces + TraceIds(spans)
    && t.kinds == s.kinds + multiset(Kinds(spans))
    && t.codes == s.codes + multiset(Codes(spans))
  }

  lemma {:induction false} AddAllRecords(s: Stats, spans: seq<Span>)
    ensures Records(s, AddAll(s, spans), spans)
    decreases spans
  {
    if spans == [] {
      assert Durations(spans) == [] && Kinds(spans) == [] && Codes(spans) == [];
    } else {
      var x, rest := spans[0], spans[1..];
      AddAllRecords(Add(s, x), rest);
      assert spans == [x] + rest;
      hide AddAll;
      RecordsOneMore(s, x, AddAll(Add(s, x), rest), rest);
    }
  }

  lemma RecordsOneMore(s: Stats, x: Span, t: Stats, rest: seq<Span>)
    requires Records(Add(s, x), t, rest)
    ensures Records(s, t, [x] + rest)
  {
    FirstRecorded(x, rest);
    hide Durations, Kinds, Codes, TraceIds;
    var d := if x.end > x.start then x.end - x.start else 0;
    assert s.durations + [d] + Durations(rest) == s.durations + ([d] + Durations(rest));
  }

  lemma FirstRecorded(x: Span, rest: seq<Span>)
    ensures Durations([x] + rest) == [if x.end > x.start then x.end - x.start else 0] + Durations(rest)
    ensures multiset(Kinds([x] + rest)) == multiset{x.kind} + multiset(Kinds(rest))
    ensures multiset(Codes([x] + rest)) ==
            multiset{if x.code.Some? then x.code.value else -1} + multiset(Codes(rest))
    ensures TraceIds([x] + rest) == {x.trace} + TraceIds(rest)
  {
    assert Kinds([x] + rest) == [x.kind] + Kinds(rest);
    assert Codes([x] + rest) == [if x.code.Some? then x.code.value else -1] + Codes(rest);
  }

  /** `children` is the dictionary by name, in order of insertion. */
  datatype Agg = Agg(name: string, depth: int, stats: Stats, children: seq<Agg>)

  function Index(children: seq<Agg>, name: string): (i: nat)
    ensures i <= |children|
    ensures i < |children| ==> children[i].name == name
    ensures forall j :: 0 <= j < i ==> children[j].name != name
  {
    var keys := seq(|children|, i requires 0 <= i < |children| => children[i].name);
    assert forall i :: 0 <= i < |children| ==> keys[i] == children[i].name;
    IndexOf(keys, name)
  }

  function Child(a: Agg, name: string): (c: Agg)
    ensures c.name == name
  {
    var i := Index(a.children, name);
    if i < |a.children| then a.children[i] else Agg(name, a.depth + 1, NOTHING, [])
  }

  function SetChild(a: Agg, c: Agg): Agg
  {
    var i := Index(a.children, c.name);
    a.(children := if i < |a.children| then a.children[i := c] else a.children + [c])
  }

  /** `walk` over some sibling trees. */
  function Walk(a: Agg, nodes: seq<Node>): (b: Agg)
    ensures b.name == a.name && b.stats == a.stats
    decreases nodes
  {
    if nodes == [] then a
    else
      var t := nodes[0];
      var c := Child(a, t.span.name);
      var below := Walk(c.(stats := Add(c.stats, t.span)), t.children);
      Walk(SetChild(a, below), nodes[1..])
  }

  /** What is recorded under a path of names. */
  function StatsAt(a: Agg, path: seq<string>): Stats
    decreases path
  {
    if path == [] then a.stats
    else
      var i := Index(a.children, path[0]);
      if i < |a.children| then StatsAt(a.children[i], path[1..]) else NOTHING
  }

  /** The spans of some trees that lie at a path of names. */
  function Named(nodes: seq<Node>, path: seq<string>): seq<Span>
    decreases nodes
  {
    if nodes == [] || path == [] then []
    else
      var t := nodes[0];
      var here := if t.span.name != path[0] then []
                  else (if |path| == 1 then [t.span] else []) + Named(t.children, path[1..]);
      here + Named(nodes[1..], path)
  }

  lemma IndexAfterSet(a: Agg, c: Agg, name: string)
    ensures
      var i, j := Index(a.children, name), Index(SetChild(a, c).children, name);
      && (name == c.name ==> j < |SetChild(a, c).children| && SetChild(a, c).children[j] == c)
      && (name != c.name ==>
            && (i < |a.children| <==> j < |SetChild(a, c).children|)
            && (i < |a.children| ==> SetChild(a, c).children[j] == a.children[i]))
  {
    var b := SetChild(a, c);
    var i, j := Index(a.children, name), Index(b.children, name);
    assert forall k :: 0 <= k < |a.children| ==> b.children[k].name == a.children[k].name;
    if i < |a.children| {
      assert j == i;
    } else if name == c.name {
      assert b.children[|a.children|] == c;
      assert j == |a.children|;
    } else {
      assert j == |b.children|;
    }
  }

  lemma StatsAfterSet(a: Agg, c: Agg, path: seq<string>)
    requires path != []
    ensures StatsAt(SetChild(a, c), path) == if path[0] == c.name then StatsAt(c, path[1..]) else StatsAt(a, path)
  {
    IndexAfterSet(a, c, path[0]);
  }

  lemma StatsOfChild(a: Agg, path: seq<string>)
    requires path != []
    ensures StatsAt(Child(a, path[0]), path[1..]) == StatsAt(a, path)
  {
    if Index(a.children, path[0]) == |a.children| && |path| > 1 {
      assert StatsAt(Child(a, path[0]), path[1..]) == NOTHING;
    }
  }

  /** The spans at a path that the first of some trees contributes. */
  function NamedIn(t: Node, path: seq<string>): seq<Span>
    requires path != []
  {
    if t.span.name != path[0] then []
    else (if |path| == 1 then [t.span] else []) + Named(t.children, path[1..])
  }

  /** Aggregation adds under every path of names exactly the spans at that path, in the
      order they are walked, and nothing else. */
  lemma {:induction false} WalkConserves(a: Agg, nodes: seq<Node>, path: seq<string>)
    requires path != []
    ensures StatsAt(Walk(a, nodes), path) == AddAll(StatsAt(a, path), Named(nodes, path))
    decreases nodes
  {
    if nodes != [] {
      var t := nodes[0];
      var c := Child(a, t.span.name);
      var d := c.(stats := Add(c.stats, t.span));
      var below := Walk(d, t.children);
      var b := SetChild(a, below);
      if |path| > 1 {
        WalkConserves(d, t.children, path[1..]);
      }
      WalkConserves(b, nodes[1..], path);
      assert Walk(a, nodes) == Walk(b, nodes[1..]);
      assert Named(nodes, path) == NamedIn(t, path) + Named(nodes[1..], path);
      FirstTree(a, t, d, below, path);
      hide *;
      AddInTurn(StatsAt(a, path), NamedIn(t, path), Named(nodes[1..], path));
    }
  }

  /** Every node is one deeper than the one it hangs from. */
  ghost predicate Deepens(a: Agg)
  {
    forall i :: 0 <= i < |a.children| ==> a.children[i].depth == a.depth + 1 && Deepens(a.children[i])
  }

  lemma {:induction false} WalkDeepens(a: Agg, nodes: seq<Node>)
    requires Deepens(a)
    ensures Deepens(Walk(a, nodes)) && Walk(a, nodes).depth == a.depth
    decreases nodes
  {
    if nodes != [] {
      var t := nodes[0];
      var c := Child(a, t.span.name);
      var d := c.(stats := Add(c.stats, t.span));
      WalkDeepens(d, t.children);
      WalkDeepens(SetChild(a, Walk(d, t.children)), nodes[1..]);
    }
  }

  /** In numbers: under every path, the spans there leave their durations, in the order they are
      walked, their traces, and counts of their kinds and status codes. */
  lemma WalkRecords(a: Agg, nodes: seq<Node>, path: seq<string>)
    requires path != []
    ensures
      var before, after, found := StatsAt(a, path), StatsAt(Walk(a, nodes), path), Named(nodes, path);
      Records(before, after, found)
  {
    WalkConserves(a, nodes, path);
    AddAllRecords(StatsAt(a, path), Named(nodes, path));
  }

  /** What walking one tree does at a path, given what it does below. */
  lemma FirstTree(a: Agg, t: Node, d: Agg, below: Agg, path: seq<string>)
    requires path != [] && below.name == t.span.name
    requires d == Child(a, t.span.name).(stats := Add(Child(a, t.span.name).stats, t.span))
    requires below.stats == d.stats
    requires |path| > 1 ==> StatsAt(below, path[1..]) == AddAll(StatsAt(d, path[1..]), Named(t.children, path[1..]))
    ensures StatsAt(SetChild(a, below), path) == AddAll(StatsAt(a, path), NamedIn(t, path))
  {
    StatsAfterSet(a, below, path);
    if path[0] == t.span.name {
      StatsOfChild(a, path);
      if |path| == 1 {
        assert path[1..] == [];
        assert NamedIn(t, path) == [t.span];
        assert AddAll(StatsAt(a, path), [t.span]) == Add(StatsAt(a, path), t.span);
      } else {
        assert NamedIn(t, path) == Named(t.children, path[1..]);
      }
    }
  }

  function Recorded(a: Agg): nat
  {
    |a.stats.durations| + RecordedIn(a.children)
  }

  function RecordedIn(children: seq<Agg>): nat
    decreases children
  {
    if children == [] then 0
    else |children[0].stats.durations| + RecordedIn(children[0].children) + RecordedIn(children[1..])
  }

  lemma {:induction false} RecordedAfterSet(children: seq<Agg>, c: Agg)
    ensures
      var i := Index(children, c.name);
      && (i < |children| ==> RecordedIn(children[i := c]) == RecordedIn(children) - Recorded(children[i]) + Recorded(c))
      && RecordedIn(children + [c]) == RecordedIn(children) + Recorded(c)
  {
    if children != [] {
      RecordedAfterSet(children[1..], c);
      assert (children + [c])[1..] == children[1..] + [c];
      var i := Index(children, c.name);
      if 0 < i < |children| {
        assert children[i := c][1..] == children[1..][i - 1 := c];
      }
    }
  }

  /** Every span of the trees is recorded once. */
  lemma {:induction false} WalkRecordsAll(a: Agg, nodes: seq<Node>)
    ensures Recorded(Walk(a, nodes)) == Recorded(a) + |Flatten(nodes)|
    decreases nodes
  {
    if nodes != [] {
      var t := nodes[0];
      var c := Child(a, t.span.name);
      var d := c.(stats := Add(c.stats, t.span));
      var below := Walk(d, t.children);
      WalkRecordsAll(d, t.children);
      RecordedAfterSet(a.children, below);
      WalkRecordsAll(SetChild(a, below), nodes[1..]);
    }
  }
}
