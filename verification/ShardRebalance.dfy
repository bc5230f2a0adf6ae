/** Rebalancing a collection to one shard a node: a topology keyed by address, replicas made
    at the wanted nodes, then every unwanted replica dropped. What the cluster answers to each
    transfer and each drop is a parameter; an address stands for the peer behind it. */
module ShardRebalance {
  import opened Basics

  datatype Addr = Addr(host: string, port: int)

  datatype Replica = Replica(shard: nat, addr: Addr)

  type Cluster = set<Replica>

  predicate Held(c: Cluster, shard: nat)
  {
    exists r :: r in c && r.shard == shard
  }

  /** The replicas at the addresses of the registry, the only ones that the script asks for. */
  function Seen(nodes: seq<Addr>, c: Cluster): Cluster
  {
    set r | r in c && r.addr in nodes
  }

  /** What becomes of a transfer: the request is refused, the wait times out (the copy may
      still arrive), or no transfer is left over, with or without a replica to show for it. */
  datatype Transfer = Refused | TimedOut(arrives: bool) | Installed | Vanished

  datatype World = World(transfer: Addr -> Transfer, dropped: Replica -> bool)

  // ----------------------------------------------------------------- topology

  /** The shard wanted at an address: a repeated address keeps its last index. */
  function Wanted(nodes: seq<Addr>, a: Addr): (i: nat)
    requires a in nodes
    ensures i < |nodes| && nodes[i] == a
    ensures forall j :: i < j < |nodes| ==> nodes[j] != a
  {
    if nodes[|nodes| - 1] == a then |nodes| - 1 else Wanted(nodes[..|nodes| - 1], a)
  }

  /** The replica a node is meant to end up with. */
  function Home(nodes: seq<Addr>, a: Addr): Replica
    requires a in nodes
  {
    Replica(Wanted(nodes, a), a)
  }

  /** Every shard below the node count is wanted somewhere exactly when no address repeats. */
  lemma TopologyCoversIff(nodes: seq<Addr>)
    ensures (forall i :: 0 <= i < |nodes| ==> Wanted(nodes, nodes[i]) == i) <==> NoRepeats(nodes)
  {
    if !NoRepeats(nodes) {
      var i, j :| 0 <= i < j < |nodes| && nodes[i] == nodes[j];
      assert Wanted(nodes, nodes[i]) >= j;
    }
  }

  lemma WantedOfPrefix(nodes: seq<Addr>, i: nat, a: Addr)
    requires i < |nodes| && a in nodes[..i + 1]
    ensures a == nodes[i] || a in nodes[..i]
    ensures Wanted(nodes[..i + 1], a) == if a == nodes[i] then i else Wanted(nodes[..i], a)
  {
    assert nodes[..i + 1][..i] == nodes[..i];
  }

  lemma TakeNext(order: seq<Addr>, k: nat)
    requires k < |order|
    ensures forall a :: a in order[..k + 1] <==> a in order[..k] || a == order[k]
  {
    assert order[..k + 1] == order[..k] + [order[k]];
  }

  /** The dictionary holds, for the addresses read so far, what is wanted there. */
  ghost predicate Mapped(read: seq<Addr>, order: seq<Addr>, want: map<Addr, nat>)
  {
    && NoRepeats(order)
    && (forall a :: a in order <==> a in read)
    && (forall a :: a in want <==> a in read)
    && (forall a :: a in read ==> want[a] == Wanted(read, a))
  }

  lemma MapNext(nodes: seq<Addr>, i: nat, order: seq<Addr>, want: map<Addr, nat>)
    requires i < |nodes| && Mapped(nodes[..i], order, want)
    ensures Mapped(nodes[..i + 1], if nodes[i] in want then order else order + [nodes[i]], want[nodes[i] := i])
  {
    TakeNext(nodes, i);
    var read, next := nodes[..i + 1], want[nodes[i] := i];
    forall a | a in read
      ensures next[a] == Wanted(read, a)
    {
      WantedOfPrefix(nodes, i, a);
    }
    hide Wanted;
  }

  lemma NothingMapped(nodes: seq<Addr>)
    ensures Mapped(nodes[..0], [], map[])
  {
  }

  lemma MappedAll(nodes: seq<Addr>, order: seq<Addr>, want: map<Addr, nat>)
    requires Mapped(nodes[..|nodes|], order, want)
    ensures Mapped(nodes, order, want)
  {
    assert nodes[..|nodes|] == nodes;
  }

  /** The dictionary as the script fills it: its keys in order of insertion, and its values. */
  method BuildTopology(nodes: seq<Addr>) returns (order: seq<Addr>, want: map<Addr, nat>)
    ensures Mapped(nodes, order, want)
  {
    hide Mapped;
    var totalShards := |nodes|;
    assert Mapped(nodes[..0], [], map[]) by { NothingMapped(nodes); }
    order, want := [], map[];
    for i := 0 to |nodes|
      invariant Mapped(nodes[..i], order, want)
    {
      MapNext(nodes, i, order, want);
      SmallRemainder(i, totalShards);
      if nodes[i] !in want {
        order := order + [nodes[i]];
      }
      want := want[nodes[i] := i % totalShards];
    }
    MappedAll(nodes, order, want);
  }

  // ------------------------------------------------------------- replication

  /** Is the wanted replica at `a` missing and copied to it? */
  predicate Copied(nodes: seq<Addr>, c: Cluster, w: World, a: Addr)
    requires a in nodes
  {
    Home(nodes, a) !in c && Held(Seen(nodes, c), Wanted(nodes, a)) && w.transfer(a) == Installed
  }

  /** Does the replication step at `a` go through without an exception? */
  predicate Passes(nodes: seq<Addr>, c: Cluster, w: World, a: Addr)
    requires a in nodes
  {
    || Home(nodes, a) in c
    || (Held(Seen(nodes, c), Wanted(nodes, a)) && (w.transfer(a) == Installed || w.transfer(a) == Vanished))
  }

  ghost predicate SameAddresses(nodes: seq<Addr>, order: seq<Addr>)
  {
    NoRepeats(order) && forall a :: a in order <==> a in nodes
  }

  /** The replicas made at the first `k` addresses. */
  ghost function Copies(nodes: seq<Addr>, order: seq<Addr>, c0: Cluster, w: World, k: nat): set<Replica>
    requires k <= |order| && SameAddresses(nodes, order)
  {
    set i | 0 <= i < k && Copied(nodes, c0, w, order[i]) :: Home(nodes, order[i])
  }

  /** The replicas the script has recorded there, a vanished transfer counted as done. */
  ghost function Recorded(nodes: seq<Addr>, order: seq<Addr>, k: nat): set<Replica>
    requires k <= |order| && SameAddresses(nodes, order)
  {
    set i | 0 <= i < k :: Home(nodes, order[i])
  }

  /** The cluster as it changed, one replica at a time. */
  ghost predicate History(trace: seq<Cluster>, c0: Cluster, c: Cluster)
  {
    && trace != [] && trace[0] == c0 && trace[|trace| - 1] == c
    && forall i, j :: 0 <= i && j == i + 1 < |trace| ==> OneReplica(trace[i], trace[j])
  }

  ghost predicate OneReplica(c: Cluster, d: Cluster)
  {
    d == c || exists r :: (r !in c && d == c + {r}) || (r in c && d == c - {r})
  }

  lemma NextEntry(trace: seq<Cluster>, c0: Cluster, c: Cluster, d: Cluster, r: Replica)
    requires History(trace, c0, c) && (d == c || d == c + {r} || d == c - {r})
    ensures History(trace + [d], c0, d)
  {
    assert OneReplica(c, d) by {
      if d != c {
        assert (r !in c && d == c + {r}) || (r in c && d == c - {r});
      }
    }
  }

  method Locate(order: seq<Addr>, c: Cluster) returns (locations: Cluster)
    ensures locations == Seen(order, c)
  {
    locations := {};
    for k := 0 to |order|
      invariant locations == set r | r in c && r.addr in order[..k]
    {
      TakeNext(order, k);
      locations := locations + (set r | r in c && r.addr == order[k]);
    }
    assert order[..|order|] == order;
  }

  /** At its own turn an address sees the shard it wants as the run started it. */
  lemma UntouchedShard(nodes: seq<Addr>, order: seq<Addr>, c0: Cluster, w: World, k: nat, r: Replica)
    requires k < |order| && SameAddresses(nodes, order)
    requires r.shard == Wanted(nodes, order[k])
    ensures r !in Copies(nodes, order, c0, w, k) && r !in Recorded(nodes, order, k)
  {
    forall i | 0 <= i < k
      ensures Home(nodes, order[i]) != r
    {
      assert order[i] in nodes && order[k] in nodes && order[i] != order[k];
    }
  }

  lemma StepView(nodes: seq<Addr>, order: seq<Addr>, c0: Cluster, w: World, k: nat)
    requires k < |order| && SameAddresses(nodes, order)
    ensures
      var shard := Wanted(nodes, order[k]);
      var locations := Seen(nodes, c0) + Recorded(nodes, order, k);
      && (Held(locations, shard) <==> Held(Seen(nodes, c0), shard))
      && (Home(nodes, order[k]) in locations <==> Home(nodes, order[k]) in c0)
    ensures Copies(nodes, order, c0, w, k + 1) ==
            Copies(nodes, order, c0, w, k) + (if Copied(nodes, c0, w, order[k]) then {Home(nodes, order[k])} else {})
    ensures Recorded(nodes, order, k + 1) == Recorded(nodes, order, k) + {Home(nodes, order[k])}
  {
    forall r: Replica | r.shard == Wanted(nodes, order[k])
      ensures r !in Copies(nodes, order, c0, w, k) && r !in Recorded(nodes, order, k)
    {
      UntouchedShard(nodes, order, c0, w, k, r);
    }
  }

  lemma NothingCopied(nodes: seq<Addr>, order: seq<Addr>, c0: Cluster, w: World)
    requires SameAddresses(nodes, order)
    ensures Copies(nodes, order, c0, w, 0) == {} && Recorded(nodes, order, 0) == {}
  {
  }

  lemma HeldMeans(c: Cluster, shard: nat)
    ensures Held(c, shard) <==> (set r | r in c && r.shard == shard) != {}
  {
    var holding := set r | r in c && r.shard == shard;
    if Held(c, shard) {
      var r :| r in c && r.shard == shard;
      assert r in holding;
    }
    if holding != {} {
      var r :| r in holding;
      assert r in c && r.shard == shard;
    }
  }

  lemma SeenAtKeys(nodes: seq<Addr>, order: seq<Addr>, c: Cluster)
    requires SameAddresses(nodes, order)
    ensures Seen(order, c) == Seen(nodes, c)
  {
  }

  /** The phase ended at address `k`, the first that did not pass, with the copies made before it
      and one more if its transfer timed out and arrived after all. */
  ghost predicate StoppedAt(nodes: seq<Addr>, order: seq<Addr>, c0: Cluster, w: World, c: Cluster, k: nat)
    requires k < |order| && SameAddresses(nodes, order)
  {
    && (forall i :: 0 <= i < k ==> Passes(nodes, c0, w, order[i])) && !Passes(nodes, c0, w, order[k])
    && c == c0 + Copies(nodes, order, c0, w, k) +
            (if Held(Seen(nodes, c0), Wanted(nodes, order[k])) && w.transfer(order[k]) == TimedOut(true)
             then {Home(nodes, order[k])} else {})
  }

  /** The replication phase. It ends early, by an exception, at the first step that does not
      pass; nothing is ever taken away. */
  method Replicate(nodes: seq<Addr>, order: seq<Addr>, want: map<Addr, nat>, c0: Cluster, w: World)
    returns (c: Cluster, finished: bool, trace: seq<Cluster>)
    requires SameAddresses(nodes, order)
    requires forall a :: a in nodes ==> a in want && want[a] == Wanted(nodes, a)
    ensures finished <==> forall k :: 0 <= k < |order| ==> Passes(nodes, c0, w, order[k])
    ensures finished ==> c == c0 + Copies(nodes, order, c0, w, |order|)
    ensures !finished ==> exists k :: 0 <= k < |order| && StoppedAt(nodes, order, c0, w, c, k)
    ensures c0 <= c && forall i :: 0 <= i < |trace| ==> c0 <= trace[i]
    ensures History(trace, c0, c)
  {
    hide Copies, Recorded, Wanted, Held, NoRepeats, OneReplica, Seen;
    c, trace, finished := c0, [c0], true;
    NothingCopied(nodes, order, c0, w);
    var locations := Locate(order, c0);
    SeenAtKeys(nodes, order, c0);
    for k := 0 to |order|
      invariant finished
      invariant c == c0 + Copies(nodes, order, c0, w, k)
      invariant locations == Seen(nodes, c0) + Recorded(nodes, order, k)
      invariant forall i :: 0 <= i < k ==> Passes(nodes, c0, w, order[i])
      invariant forall i :: 0 <= i < |trace| ==> c0 <= trace[i]
      invariant History(trace, c0, c)
    {
      var here := order[k];
      StepView(nodes, order, c0, w, k);
      assert here in nodes;
      var wanted := Replica(want[here], here);
      if wanted !in locations {
        var sources := set r | r in locations && r.shard == want[here];
        HeldMeans(locations, want[here]);
        if sources == {} {
          assert c == c0 + Copies(nodes, order, c0, w, k) + {};
          assert StoppedAt(nodes, order, c0, w, c, k);
          return c, false, trace;
        }
        match w.transfer(here) {
          case Refused =>
            assert c == c0 + Copies(nodes, order, c0, w, k) + {};
            assert StoppedAt(nodes, order, c0, w, c, k);
            return c, false, trace;
          case TimedOut(arrives) =>
            var late := if arrives then c + {wanted} else c;
            NextEntry(trace, c0, c, late, wanted);
            assert late == c0 + Copies(nodes, order, c0, w, k) + (if arrives then {wanted} else {});
            assert StoppedAt(nodes, order, c0, w, late, k);
            return late, false, trace + [late];
          case Installed =>
            NextEntry(trace, c0, c, c + {wanted}, wanted);
            c := c + {wanted};
            trace := trace + [c];
          case Vanished =>
        }
        locations := locations + {wanted};
      }
    }
  }

  // ------------------------------------------------------------------- drops

  /** Is this replica dropped? */
  predicate Removed(nodes: seq<Addr>, w: World, r: Replica)
  {
    r.addr in nodes && Wanted(nodes, r.addr) != r.shard && w.dropped(r)
  }

  /** The drop phase; a failed drop is reported and passed over. */
  method Drop(
      nodes: seq<Addr>, order: seq<Addr>, want: map<Addr, nat>, c1: Cluster, w: World, ghost c0: Cluster,
          told: seq<Cluster>)
    returns (c: Cluster, trace: seq<Cluster>)
    requires SameAddresses(nodes, order)
    requires forall a :: a in nodes ==> a in want && want[a] == Wanted(nodes, a)
    requires History(told, c0, c1) && forall i :: 0 <= i < |told| ==> c0 <= told[i]
    ensures c == set r | r in c1 && !Removed(nodes, w, r)
    ensures forall i :: 0 <= i < |trace| ==> c0 <= trace[i] || c <= trace[i]
    ensures History(trace, c0, c)
  {
    hide OneReplica;
    c, trace := c1, told;
    for k := 0 to |order|
      invariant c == set r | r in c1 && !(r.addr in order[..k] && Removed(nodes, w, r))
      invariant forall i :: 0 <= i < |trace| ==> c0 <= trace[i] || c <= trace[i]
      invariant History(trace, c0, c)
    {
      TakeNext(order, k);
      var here := order[k];
      assert here in nodes;
      var local := set r | r in c && r.addr == here;
      ghost var before := c;
      var todo := local;
      while todo != {}
        invariant todo <= local
        invariant c == set r | r in before && !(r.addr == here && r !in todo && Removed(nodes, w, r))
        invariant forall i :: 0 <= i < |trace| ==> c0 <= trace[i] || c <= trace[i]
        invariant History(trace, c0, c)
      {
        var r :| r in todo;
        todo := todo - {r};
        if r.shard != want[here] && w.dropped(r) {
          NextEntry(trace, c0, c, c - {r}, r);
          c := c - {r};
          trace := trace + [c];
        }
      }
    }
    assert order[..|order|] == order;
  }

  // ---------------------------------------------------------------- the script

  /** What a rebalance leaves: if some replication step failed nothing has been dropped;
      otherwise exactly the copied and original replicas whose drop was not carried out. */
  ghost predicate Rebalanced(nodes: seq<Addr>, c0: Cluster, w: World, c: Cluster, finished: bool)
  {
    && (finished <==> forall a :: a in nodes ==> Passes(nodes, c0, w, a))
    && (finished ==> forall r ::
          r in c <==> (r in c0 || MadeCopy(nodes, c0, w, r)) && !Removed(nodes, w, r))
    && (!finished ==> c0 <= c)
  }

  predicate MadeCopy(nodes: seq<Addr>, c0: Cluster, w: World, r: Replica)
  {
    r.addr in nodes && r == Home(nodes, r.addr) && Copied(nodes, c0, w, r.addr)
  }

  method Rebalance(nodes: seq<Addr>, c0: Cluster, w: World)
    returns (c: Cluster, finished: bool, trace: seq<Cluster>)
    ensures Rebalanced(nodes, c0, w, c, finished)
    ensures forall i :: 0 <= i < |trace| ==> c0 <= trace[i] || c <= trace[i]
    ensures History(trace, c0, c)
  {
    var order, want := BuildTopology(nodes);
    var c1, ok, copies := Replicate(nodes, order, want, c0, w);
    if !ok {
      return c1, false, copies;
    }
    var c2, all := Drop(nodes, order, want, c1, w, c0, copies);
    forall r
      ensures r in Copies(nodes, order, c0, w, |order|) <==> MadeCopy(nodes, c0, w, r)
    {
      if MadeCopy(nodes, c0, w, r) {
        assert r.addr in order;
        var i :| 0 <= i < |order| && order[i] == r.addr;
        assert Copied(nodes, c0, w, order[i]);
      }
    }
    c, finished, trace := c2, true, all;
  }

  // ------------------------------------------------------------------ results

  /** Does the node that wants the shard hold it once the replication phase is over? */
  predicate AtHome(nodes: seq<Addr>, c0: Cluster, w: World, shard: nat)
  {
    && shard < |nodes| && Wanted(nodes, nodes[shard]) == shard
    && (Replica(shard, nodes[shard]) in c0 || Copied(nodes, c0, w, nodes[shard]))
  }

  /** Exactly when a shard is lost: it never reached a node that wants it, and every replica of
      it was at a node of the registry and dropped. */
  lemma LostIff(nodes: seq<Addr>, c0: Cluster, w: World, c: Cluster, shard: nat)
    requires Rebalanced(nodes, c0, w, c, true)
    ensures !Held(c, shard) <==>
            !AtHome(nodes, c0, w, shard) &&
            forall r :: r in c0 && r.shard == shard ==> r.addr in nodes && w.dropped(r)
  {
    hide Seen;
    if AtHome(nodes, c0, w, shard) {
      assert Replica(shard, nodes[shard]) in c;
    } else {
      forall r | r in c0 && r.shard == shard
        ensures r in c <==> !(r.addr in nodes && w.dropped(r))
      {
        assert r.addr in nodes ==> Wanted(nodes, r.addr) != shard;
      }
      forall r | r in c && r.shard == shard
        ensures r in c0
      {
      }
    }
  }

  /** With distinct addresses and one shard a node, no shard is ever without a replica, at
      any step, whether drops fail or the run is cut short, as long as its transfer does not
      vanish. */
  lemma NeverWithoutReplica(
      nodes: seq<Addr>, c0: Cluster, w: World, c: Cluster, finished: bool, at: Cluster, shard: nat)
    requires Rebalanced(nodes, c0, w, c, finished) && (c0 <= at || c <= at)
    requires NoRepeats(nodes) && shard < |nodes| && Held(c0, shard)
    requires w.transfer(nodes[shard]) != Vanished
    ensures Held(at, shard)
  {
    TopologyCoversIff(nodes);
    if finished {
      assert Passes(nodes, c0, w, nodes[shard]);
      assert AtHome(nodes, c0, w, shard);
      LostIff(nodes, c0, w, c, shard);
    }
    assert Held(c, shard);
    var r :| r in c && r.shard == shard;
    var q :| q in c0 && q.shard == shard;
    assert if c0 <= at then q in at else r in at;
  }

  /** When every transfer and every drop is carried out, each shard seen at the registry's nodes
      is at its own node and at no other of them; replicas elsewhere stay. */
  lemma OneShardANode(nodes: seq<Addr>, c0: Cluster, w: World, c: Cluster, finished: bool)
    requires Rebalanced(nodes, c0, w, c, finished) && NoRepeats(nodes)
    requires forall i: nat :: i < |nodes| ==> Held(Seen(nodes, c0), i)
    requires forall a :: a in nodes ==> w.transfer(a) == Installed
    requires forall r: Replica :: r.addr in nodes ==> w.dropped(r)
    ensures finished
    ensures forall r :: r in c <==>
        if r.addr in nodes then r.shard < |nodes| && r.addr == nodes[r.shard] else r in c0
  {
    hide Seen;
    TopologyCoversIff(nodes);
    forall a | a in nodes
      ensures Passes(nodes, c0, w, a)
    {
      assert Held(Seen(nodes, c0), Wanted(nodes, a));
    }
    forall r
      ensures r in c <==> if r.addr in nodes then r.shard < |nodes| && r.addr == nodes[r.shard] else r in c0
    {
      if r.addr in nodes && Wanted(nodes, r.addr) == r.shard {
        assert r == Home(nodes, r.addr);
      }
    }
  }

  /** A shard beyond the node count is wanted nowhere, and lost exactly if its drops are carried
      out, which is why a document with another shard count skips the rebalance. */
  lemma ExtraShardsAreLost(nodes: seq<Addr>, c0: Cluster, w: World, c: Cluster, shard: nat)
    requires Rebalanced(nodes, c0, w, c, true) && shard >= |nodes|
    ensures !Held(c, shard) <==> forall r :: r in c0 && r.shard == shard ==> r.addr in nodes && w.dropped(r)
  {
    LostIff(nodes, c0, w, c, shard);
  }

  /** A repeated address loses the first of its shards in the same way: nobody wants it. */
  lemma RepeatedAddressLosesShard(nodes: seq<Addr>, c0: Cluster, w: World, c: Cluster, i: nat, j: nat)
    requires Rebalanced(nodes, c0, w, c, true) && i < j < |nodes| && nodes[i] == nodes[j]
    ensures !Held(c, i) <==> forall r :: r in c0 && r.shard == i ==> r.addr in nodes && w.dropped(r)
  {
    LostIff(nodes, c0, w, c, i);
  }

  // ---------------------------------------------------------------- two losses

  const FIRST := Addr("first", 6333)
  const SECOND := Addr("second", 6333)

  /** Both shards begin at the second node and every transfer vanishes: the rebalance finishes
      without an error, and shard 0 is gone. */
  method VanishedTransferLosesShard() returns (c: Cluster, finished: bool)
    ensures finished && c == {Replica(1, SECOND)} && !Held(c, 0)
  {
    var nodes := [FIRST, SECOND];
    var c0 := {Replica(0, SECOND), Replica(1, SECOND)};
    var w := World(_ => Vanished, _ => true);
    ghost var trace;
    c, finished, trace := Rebalance(nodes, c0, w);
    assert Wanted(nodes, FIRST) == 0 && Wanted(nodes, SECOND) == 1;
    assert Replica(0, SECOND) in Seen(nodes, c0);
    assert forall r :: r in c <==> r == Replica(1, SECOND);
  }

  /** One address given twice: every transfer and drop is carried out, and shard 0 is gone. */
  method RepeatedAddressExample() returns (c: Cluster, finished: bool)
    ensures finished && c == {Replica(1, FIRST)} && !Held(c, 0)
  {
    var nodes := [FIRST, FIRST];
    var c0 := {Replica(0, FIRST), Replica(1, FIRST)};
    var w := World(_ => Installed, _ => true);
    ghost var trace;
    c, finished, trace := Rebalance(nodes, c0, w);
    assert Wanted(nodes, FIRST) == 1;
    assert forall r :: r in c <==> r == Replica(1, FIRST);
  }
}
