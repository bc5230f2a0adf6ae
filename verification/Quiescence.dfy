/** The two polling loops that wait until a collection has stayed quiet for a stabilization
    period. What the polls see, and when, is a parameter; running out of polls stands for the
    context being cancelled. */
module Quiescence {
  import opened Basics

  // ------------------------------------------------------------------- windows

  /** What one poll means for the window: nothing, quiet at a time, or a break. */
  datatype Sight = Missed | Calm(at: int) | Broken

  /** Everything seen from `i` to `k` was quiet, beginning at `i`. */
  predicate Quiet(s: seq<Sight>, i: nat, k: nat)
  {
    i <= k < |s| && s[i].Calm? && forall j :: i <= j <= k ==> !s[j].Broken?
  }

  /** `i` is where the quiet that holds at `k` began. */
  predicate Window(s: seq<Sight>, i: nat, k: nat)
  {
    Quiet(s, i, k) && forall h :: 0 <= h < i ==> !Quiet(s, h, k)
  }

  /** The poll `k` is quiet and the window around it old enough. */
  predicate Settled(s: seq<Sight>, i: nat, k: nat, period: int)
  {
    Window(s, i, k) && i < k && s[k].Calm? && s[k].at - s[i].at >= period
  }

  ghost predicate SettlesAt(s: seq<Sight>, k: nat, period: int)
  {
    exists i :: 0 <= i <= k && Settled(s, i, k, period)
  }

  lemma WindowUnique(s: seq<Sight>, i: nat, j: nat, k: nat)
    requires Window(s, i, k) && Window(s, j, k)
    ensures i == j
  {
  }

  lemma QuietBefore(s: seq<Sight>, h: nat, k: nat, n: nat)
    requires h <= k && n == k + 1 && Quiet(s, h, n)
    ensures Quiet(s, h, k)
  {
  }

  lemma WindowGrows(s: seq<Sight>, i: nat, k: nat, n: nat)
    requires Window(s, i, k) && n == k + 1 < |s| && !s[n].Broken?
    ensures Window(s, i, n)
  {
    forall h | 0 <= h < i && Quiet(s, h, n)
      ensures Quiet(s, h, k)
    {
      QuietBefore(s, h, k, n);
    }
  }

  predicate NoWindow(s: seq<Sight>, k: nat)
  {
    forall h :: 0 <= h <= k ==> !Quiet(s, h, k)
  }

  lemma NothingGrows(s: seq<Sight>, k: nat, n: nat)
    requires NoWindow(s, k) && n == k + 1
    ensures forall h :: 0 <= h < n ==> !Quiet(s, h, n)
  {
    forall h | 0 <= h < n && Quiet(s, h, n)
      ensures Quiet(s, h, k)
    {
      QuietBefore(s, h, k, n);
    }
  }

  /** Where the loop's `stableSince` comes from: the window's start, if there is a window. */
  ghost predicate Tracks(s: seq<Sight>, n: nat, since: Option<nat>)
    requires n <= |s|
  {
    match since
    case None => n == 0 || NoWindow(s, n - 1)
    case Some(i) => n > 0 && Window(s, i, n - 1)
  }

  lemma TrackStep(s: seq<Sight>, n: nat, since: Option<nat>)
    requires n < |s| && Tracks(s, n, since)
    ensures Tracks(s, n + 1, match s[n]
                             case Missed => since
                             case Calm(_) => if since.Some? then since else Some(n)
                             case Broken => None)
  {
    match s[n] {
      case Missed =>
        if since.Some? {
          WindowGrows(s, since.value, n - 1, n);
        } else if n > 0 {
          NothingGrows(s, n - 1, n);
        }
      case Calm(_) =>
        if since.Some? {
          WindowGrows(s, since.value, n - 1, n);
        } else if n > 0 {
          NothingGrows(s, n - 1, n);
        }
      case Broken =>
    }
  }

  lemma SettlesIff(s: seq<Sight>, n: nat, since: Option<nat>, period: int)
    requires n < |s| && Tracks(s, n, since)
    ensures SettlesAt(s, n, period) <==> since.Some? && s[n].Calm? && s[n].at - s[since.value].at >= period
  {
    TrackStep(s, n, since);
    if SettlesAt(s, n, period) {
      var i :| 0 <= i <= n && Settled(s, i, n, period);
      var now := match s[n] case Missed => since case Calm(_) => (if since.Some?
          then since else Some(n)) case Broken => None;
      WindowUnique(s, i, now.value, n);
    } else if since.Some? && s[n].Calm? {
      assert Window(s, since.value, n);
      assert !Settled(s, since.value, n, period);
    }
  }

  // --------------------------------------------------------- waitForQuiescence

  datatype Hnsw = Ready | NotReady | CheckFailed

  datatype Poll = FetchFailed | Snapshot(at: int, queue: int, indexing: int, hnsw: Hnsw)

  predicate IsQuiescent(p: Poll, requireHnsw: bool)
  {
    p.Snapshot? && p.queue == 0 && p.indexing == 0 && (requireHnsw ==> p.hnsw == Ready)
  }

  /** A failed fetch leaves the window alone; a failed HNSW check breaks it. */
  function Seen(p: Poll, requireHnsw: bool): Sight
  {
    if p.FetchFailed? then Missed
    else if IsQuiescent(p, requireHnsw) then Calm(p.at)
    else Broken
  }

  function Sights(polls: seq<Poll>, requireHnsw: bool): (s: seq<Sight>)
    ensures |s| == |polls|
  {
    seq(|polls|, i requires 0 <= i < |polls| => Seen(polls[i], requireHnsw))
  }

  datatype Outcome = Since(at: int, first: nat, last: nat) | Cancelled

  /** In a window every snapshot shows an empty queue and nothing being indexed. */
  lemma AllQuiet(polls: seq<Poll>, requireHnsw: bool, first: nat, last: nat)
    requires last < |polls| && Window(Sights(polls, requireHnsw), first, last)
    ensures forall j :: first <= j <= last && polls[j].Snapshot? ==>
        polls[j].queue == 0 && polls[j].indexing == 0 && (requireHnsw ==> polls[j].hnsw.Ready?)
  {
    var s := Sights(polls, requireHnsw);
    forall j | first <= j <= last && polls[j].Snapshot?
      ensures polls[j].queue == 0 && polls[j].indexing == 0 && (requireHnsw ==> polls[j].hnsw.Ready?)
    {
      assert !s[j].Broken?;
    }
  }

  /** The loop returns at the first poll that settles, with the time its window began. */
  method WaitForQuiescence(polls: seq<Poll>, requireHnsw: bool, period: int) returns (r: Outcome)
    ensures r.Since? ==>
      && r.last < |polls|
      && Settled(Sights(polls, requireHnsw), r.first, r.last, period)
      && r.at == polls[r.first].at
      && polls[r.last].Snapshot? && polls[r.last].at - r.at >= period
      && (forall j :: r.first <= j <= r.last && polls[j].Snapshot? ==>
            polls[j].queue == 0 && polls[j].indexing == 0 && (requireHnsw ==> polls[j].hnsw.Ready?))
    ensures r.Since? ==> forall k :: 0 <= k < r.last ==> !SettlesAt(Sights(polls, requireHnsw), k, period)
    ensures r == Cancelled ==> forall k :: 0 <= k < |polls| ==> !SettlesAt(Sights(polls, requireHnsw), k, period)
  {
    ghost var s := Sights(polls, requireHnsw);
    var stableSince: Option<int> := None;
    var first := 0;
    for n := 0 to |polls|
      invariant Tracks(s, n, if stableSince.Some? then Some(first) else None)
      invariant stableSince.Some? ==> first < n && polls[first].Snapshot? && stableSince.value == polls[first].at
      invariant forall k :: 0 <= k < n ==> !SettlesAt(s, k, period)
    {
      ghost var since := if stableSince.Some? then Some(first) else None;
      TrackStep(s, n, since);
      SettlesIff(s, n, since, period);
      var p := polls[n];
      if p.Snapshot? {
        var hnswReady := !requireHnsw;
        var failed := false;
        if requireHnsw {
          hnswReady := p.hnsw == Ready;
          failed := p.hnsw == CheckFailed;
        }
        if !failed && p.queue == 0 && p.indexing == 0 && hnswReady {
          if stableSince.None? {
            stableSince, first := Some(p.at), n;
          } else if p.at - stableSince.value >= period {
            assert Window(s, first, n);
            AllQuiet(polls, requireHnsw, first, n);
            return Since(stableSince.value, first, n);
          }
        } else if stableSince.Some? {
          stableSince := None;
        }
      }
    }
    r := Cancelled;
  }

  /** What a returned time says about the polls: it was a quiescent poll's, the last poll was
      quiescent and a whole period later, and every snapshot between them that could be
      fetched was quiescent, with no failed HNSW check where one is required. */
  lemma ReturnedTime(polls: seq<Poll>, requireHnsw: bool, period: int, first: nat, last: nat, j: nat)
    requires last < |polls| && Settled(Sights(polls, requireHnsw), first, last, period) && first <= j <= last
    ensures IsQuiescent(polls[first], requireHnsw) && IsQuiescent(polls[last], requireHnsw)
    ensures polls[last].at - polls[first].at >= period
    ensures polls[j].Snapshot? ==> IsQuiescent(polls[j], requireHnsw) && (requireHnsw ==> polls[j].hnsw == Ready)
    ensures first > 0 ==> !IsQuiescent(polls[first - 1], requireHnsw)
  {
    var s := Sights(polls, requireHnsw);
    assert !s[j].Broken?;
    if first > 0 && IsQuiescent(polls[first - 1], requireHnsw) {
      assert s[first - 1].Calm?;
      assert Quiet(s, first - 1, last);
    }
  }

  // ---------------------------------------------------------- the Milvus loop

  /** `later` is the clock read for the time limit, at the end of the poll. */
  datatype Status = PollFailed(later: int) | Status(now: int, later: int, indexed: int, pending: int)

  datatype Plan = Plan(flush: bool, target: int, built: int, started: int, period: int, limit: int)

  datatype Finish =
    | Stabilised(targetAt: int, at: int, first: nat, last: nat)
    | TimedOut
    | Polling

  predicate ShowsTarget(p: Status, plan: Plan)
  {
    p.Status? && p.indexed == plan.target
  }

  /** With flushing, polls count only from the first that shows the target. */
  predicate TargetSeen(polls: seq<Status>, plan: Plan, n: nat)
    requires n <= |polls|
  {
    !plan.flush || exists i :: 0 <= i < n && ShowsTarget(polls[i], plan)
  }

  function PendingSight(polls: seq<Status>, plan: Plan, i: nat): Sight
    requires i < |polls|
  {
    if polls[i].PollFailed? || !TargetSeen(polls, plan, i + 1) then Missed
    else if polls[i].pending == 0 then Calm(polls[i].now)
    else Broken
  }

  function PendingSights(polls: seq<Status>, plan: Plan): (s: seq<Sight>)
    ensures |s| == |polls|
  {
    seq(|polls|, i requires 0 <= i < |polls| => PendingSight(polls, plan, i))
  }

  method WaitForIndex(polls: seq<Status>, plan: Plan) returns (r: Finish)
    ensures r.Stabilised? ==>
      && r.last < |polls| && Settled(PendingSights(polls, plan), r.first, r.last, plan.period)
      && r.at == polls[r.first].now
      && TargetTime(polls, plan, r.first, r.targetAt)
      && polls[r.first].Status? && polls[r.last].Status? && polls[r.last].now - r.at >= plan.period
      && (forall j :: r.first <= j <= r.last && polls[j].Status? ==> polls[j].pending == 0)
      && (plan.flush ==> exists i :: 0 <= i <= r.first && polls[i].Status? && polls[i].indexed == plan.target)
    ensures r.Stabilised? ==> forall k :: 0 <= k < r.last ==>
      !SettlesAt(PendingSights(polls, plan), k, plan.period) && polls[k].later - plan.started <= plan.limit
    ensures r == TimedOut ==> exists k ::
      0 <= k < |polls| && polls[k].later - plan.started > plan.limit
          && !SettlesAt(PendingSights(polls, plan), k, plan.period)
    ensures r == Polling ==> forall k :: 0 <= k < |polls| ==> !SettlesAt(PendingSights(polls, plan), k, plan.period)
  {
    hide Settled;
    ghost var s := PendingSights(polls, plan);
    var targetAt: Option<int> := None;
    var zeroSince: Option<int> := None;
    var first := 0;
    for n := 0 to |polls|
      invariant Tracks(s, n, if zeroSince.Some? then Some(first) else None)
      invariant zeroSince.Some? ==> first < n && polls[first].Status? && zeroSince.value == polls[first].now
      invariant zeroSince.Some? ==> targetAt.Some? && TargetTime(polls, plan, first, targetAt.value)
      invariant targetAt.None? ==> plan.flush ==> !TargetSeen(polls, plan, n)
      invariant targetAt.Some? ==> TargetSeen(polls, plan, n) && TargetTime(polls, plan, n, targetAt.value)
      invariant forall k :: 0 <= k < n ==> !SettlesAt(s, k, plan.period) && polls[k].later - plan.started <= plan.limit
    {
      ghost var since := if zeroSince.Some? then Some(first) else None;
      TrackStep(s, n, since);
      SettlesIff(s, n, since, plan.period);
      var p := polls[n];
      var counting := p.Status?;
      if p.Status? {
        if targetAt.None? {
          if !plan.flush {
            targetAt := Some(plan.built);
          } else if p.indexed == plan.target {
            targetAt := Some(p.now);
          } else {
            counting := false;
          }
        }
        if counting {
          if p.pending == 0 {
            if zeroSince.None? {
              zeroSince, first := Some(p.now), n;
            } else if p.now - zeroSince.value >= plan.period {
              SettledHere(s, n, first, plan.period);
              NothingPending(polls, plan, first, n);
              return Stabilised(targetAt.value, zeroSince.value, first, n);
            }
          } else {
            zeroSince := None;
          }
        }
      }
      if p.later - plan.started > plan.limit {
        return TimedOut;
      }
    }
    r := Polling;
  }

  /** In a window nothing is pending, and with flushing the target was seen by its start. */
  lemma NothingPending(polls: seq<Status>, plan: Plan, first: nat, last: nat)
    requires last < |polls| && Window(PendingSights(polls, plan), first, last)
    ensures polls[first].Status?
    ensures forall j :: first <= j <= last && polls[j].Status? ==> polls[j].pending == 0
    ensures plan.flush ==> exists i :: 0 <= i <= first && polls[i].Status? && polls[i].indexed == plan.target
  {
    var s := PendingSights(polls, plan);
    assert s[first].Calm?;
    assert TargetSeen(polls, plan, first + 1);
    forall j | first <= j <= last && polls[j].Status?
      ensures polls[j].pending == 0
    {
      assert !s[j].Broken?;
      assert TargetSeen(polls, plan, j + 1);
    }
  }

  lemma SettledHere(s: seq<Sight>, n: nat, first: nat, period: int)
    requires n < |s| && first < n && Window(s, first, n) && s[n].Calm? && s[n].at - s[first].at >= period
    ensures Settled(s, first, n, period)
  {
  }

  /** The time reported for the target: the build's end, or the poll that showed it. */
  ghost predicate TargetTime(polls: seq<Status>, plan: Plan, n: nat, at: int)
    requires n <= |polls|
  {
    if !plan.flush then at == plan.built
    else exists i :: 0 <= i <= n && i < |polls| && ShowsTarget(polls[i], plan) && polls[i].now == at
  }

  /** With a clock that does not run backwards the reported stabilization time is never
      negative. */
  lemma StabilizationIsNonNegative(polls: seq<Status>, plan: Plan, first: nat, targetAt: int)
    requires first < |polls| && polls[first].Status? && TargetTime(polls, plan, first, targetAt)
    requires forall i, j :: 0 <= i <= j < |polls| && polls[i].Status? && polls[j].Status? ==>
        polls[i].now <= polls[j].now
    requires forall i :: 0 <= i < |polls| && polls[i].Status? ==> plan.built <= polls[i].now
    ensures polls[first].now - targetAt >= 0
  {
  }
}
