/** The ring that assigns shards to nodes, and the placement manager that keeps it. */
module Placement {
  import opened Bytes
  import opened Hash

  type Ring = map<nat, seq<string>>

  function Decimal(n: nat): string {
    var digit := "0123456789"[n % 10..n % 10 + 1];
    if n < 10 then digit else Decimal(n / 10) + digit
  }

  /** The number that a string of decimal digits writes. */
  function Numeral(s: string): nat {
    if s == [] then 0 else 10 * Numeral(s[..|s| - 1]) + (if '0' <= s[|s| - 1] <= '9' then s[|s| - 1] as nat - '0' as nat else 0)
  }

  /** `Decimal` writes the number in decimal digits, without leading zeros. */
  lemma {:induction false} DecimalWrites(n: nat)
    ensures var s := Decimal(n);
            && s != [] && Numeral(s) == n && (forall i :: 0 <= i < |s| ==> '0' <= s[i] <= '9')
            && (s[0] == '0' ==> s == "0")
  {
    var s, digit := Decimal(n), "0123456789"[n % 10..n % 10 + 1];
    assert digit == ["0123456789"[n % 10]] && digit[0] as nat == '0' as nat + n % 10;
    assert Numeral("0") == 0 by { assert "0"[..0] == []; }
    if n < 10 {
      assert s[..0] == [];
    } else {
      DecimalWrites(n / 10);
      assert s[..|s| - 1] == Decimal(n / 10) && s[|s| - 1] == digit[0];
    }
  }

  /** The assignments of the first `n` shards. */
  function Assigned(h: Hasher, n: nat, nodes: seq<string>, replicas: nat): Ring {
    map s: nat | s < n :: SelectReplicas(h, "shard-" + Decimal(s), nodes, replicas)
  }

  /** The shards a ring gives to a node. */
  function ShardsOf(ring: Ring, node: string): set<nat> {
    set s | s in ring && node in ring[s]
  }

  function Min(a: nat, b: nat): nat {
    if a < b then a else b
  }

  class ConsistentHashRing {
    const h: Hasher
    const numShards: nat
    var shardToNodes: Ring

    constructor (h: Hasher, numShards: nat)
      ensures this.h == h && this.numShards == numShards && shardToNodes == map[]
    {
      this.h, this.numShards, shardToNodes := h, numShards, map[];
    }

    method AssignShard(shard: nat, nodes: seq<string>)
      modifies this
      ensures shardToNodes == old(shardToNodes)[shard := nodes]
    {
      shardToNodes := shardToNodes[shard := nodes];
    }

    method GetShardNodes(shard: nat) returns (r: Option<seq<string>>)
      ensures r == if shard in shardToNodes then Some(shardToNodes[shard]) else None
    {
      return if shard in shardToNodes then Some(shardToNodes[shard]) else None;
    }

    /** With no shards the source divides by zero. */
    method GetNodes(key: string) returns (r: Option<seq<string>>)
      requires numShards > 0
      ensures var shard := h(key) % numShards;
              r == if shard in shardToNodes then Some(shardToNodes[shard]) else None
    {
      r := GetShardNodes(h(key) % numShards);
    }

    /** Reassigns every shard below `numShards`; others keep what they were assigned by hand. */
    method Rebalance(nodes: seq<string>, replicas: nat)
      modifies this
      ensures shardToNodes == old(shardToNodes) + Assigned(h, numShards, nodes, replicas)
    {
      for shard := 0 to numShards
        invariant shardToNodes == old(shardToNodes) + Assigned(h, shard, nodes, replicas)
      {
        shardToNodes := shardToNodes[shard := SelectReplicas(h, "shard-" + Decimal(shard), nodes, replicas)];
      }
    }

    /** The shards of a node, in whatever order the map is iterated. */
    method ShardsForNode(node: string) returns (shards: seq<nat>)
      ensures forall s :: s in shards <==> s in ShardsOf(shardToNodes, node)
      ensures |shards| == |ShardsOf(shardToNodes, node)|
    {
      ghost var all := ShardsOf(shardToNodes, node);
      shards := [];
      var left := shardToNodes.Keys;
      assert all - left == {};
      while left != {}
        invariant left <= shardToNodes.Keys
        invariant forall s :: s in shards <==> s in all - left
        invariant |shards| == |all - left|
      {
        var shard :| shard in left;
        VisitOne(all, left, shard);
        left := left - {shard};
        if node in shardToNodes[shard] {
          shards := shards + [shard];
        }
      }
      assert all - left == all;
    }
  }

  // ---------- Minimal movement ----------

  /** Removing a node and rebalancing: every shard that did not hold it is unchanged, and every shard
      that did keeps its other replicas in order and gains at most one. */
  lemma RebalanceMovesLittle(h: Hasher, numShards: nat, nodes: seq<string>, replicas: nat, x: string, shard: nat)
    requires Distinct(nodes) && shard < numShards
    ensures var before := Assigned(h, numShards, nodes, replicas)[shard];
            var after := Assigned(h, numShards, Without(nodes, x), replicas)[shard];
            && (x !in before ==> after == before)
            && Without(before, x) <= after && |after| <= |Without(before, x)| + 1 && x !in after
  {
    RemovingOneNode(h, "shard-" + Decimal(shard), nodes, replicas, x);
  }

  // ---------- Conservation ----------

  lemma SelectionSize(h: Hasher, key: string, nodes: seq<string>, n: nat)
    requires Distinct(nodes)
    ensures var r := SelectReplicas(h, key, nodes, n);
            Distinct(r) && |r| == Min(n, |nodes|) && forall x :: x in r ==> x in nodes
  {
    HrwDistinct(h, key, nodes);
    hide HrwHash;
  }

  /** After rebalancing over distinct nodes every key resolves to exactly min(replicas, nodes)
      distinct available nodes. */
  lemma EveryKeyResolves(h: Hasher, ring: Ring, numShards: nat, nodes: seq<string>, replicas: nat, key: string)
    requires Distinct(nodes) && numShards > 0
    ensures var after := ring + Assigned(h, numShards, nodes, replicas);
            var shard := h(key) % numShards;
            && shard in after && Distinct(after[shard]) && |after[shard]| == Min(replicas, |nodes|)
            && forall x :: x in after[shard] ==> x in nodes
  {
    SelectionSize(h, "shard-" + Decimal(h(key) % numShards), nodes, replicas);
  }

  /** Each shard is on the nodes that hash highest after "shard-" and its number. */
  lemma ShardOnHeaviest(h: Hasher, ring: Ring, numShards: nat, nodes: seq<string>, replicas: nat, shard: nat, i: nat, j: nat)
    requires Distinct(nodes) && shard < numShards && i < |nodes| && j < |nodes|
    requires var chosen := (ring + Assigned(h, numShards, nodes, replicas))[shard];
             nodes[i] in chosen && nodes[j] !in chosen
    ensures var x, y := h("shard-" + Decimal(shard) + nodes[i]), h("shard-" + Decimal(shard) + nodes[j]);
            x > y || (x == y && i < j)
  {
    SelectsHeaviest(h, "shard-" + Decimal(shard), nodes, replicas, i, j);
  }

  /** The sizes of the shard lists of some nodes, added up. */
  function TotalShards(ring: Ring, nodes: seq<string>): nat {
    if nodes == [] then 0 else |ShardsOf(ring, nodes[0])| + TotalShards(ring, nodes[1..])
  }

  /** How many of `nodes` occur in `r`. */
  function Hits(nodes: seq<string>, r: seq<string>): nat {
    if nodes == [] then 0 else (if nodes[0] in r then 1 else 0) + Hits(nodes[1..], r)
  }

  lemma {:induction false} HitsAsSet(nodes: seq<string>, r: seq<string>)
    requires Distinct(nodes)
    ensures Hits(nodes, r) == |set x | x in nodes && x in r|
  {
    if nodes != [] {
      HitsAsSet(nodes[1..], r);
      var rest := set x | x in nodes[1..] && x in r;
      var all := set x | x in nodes && x in r;
      assert forall x :: x in nodes <==> x == nodes[0] || x in nodes[1..];
      assert nodes[0] !in rest;
      assert all == if nodes[0] in r then rest + {nodes[0]} else rest;
    } else {
      assert (set x | x in nodes && x in r) == {};
    }
  }

  lemma {:induction false} DistinctSize(r: seq<string>)
    requires Distinct(r)
    ensures |set x | x in r| == |r|
  {
    if r != [] {
      DistinctSize(r[1..]);
      HeadTail(r);
      assert (set x | x in r) == (set x | x in r[1..]) + {r[0]};
    } else {
      assert (set x | x in r) == {};
    }
  }

  lemma EveryReplicaHits(nodes: seq<string>, r: seq<string>)
    requires Distinct(nodes) && Distinct(r) && forall x :: x in r ==> x in nodes
    ensures Hits(nodes, r) == |r|
  {
    HitsAsSet(nodes, r);
    DistinctSize(r);
    assert (set x | x in nodes && x in r) == set x | x in r;
  }

  /** Adding one shard to a ring adds one to the list of each node it is assigned to. */
  lemma {:induction false} OneMoreShard(ring: Ring, shard: nat, r: seq<string>, nodes: seq<string>)
    requires shard !in ring
    ensures TotalShards(ring[shard := r], nodes) == TotalShards(ring, nodes) + Hits(nodes, r)
  {
    if nodes != [] {
      OneMoreShard(ring, shard, r, nodes[1..]);
      var node := nodes[0];
      assert ShardsOf(ring[shard := r], node) == ShardsOf(ring, node) + (if node in r then {shard} else {});
    }
  }

  /** Ring conservation: for a ring that holds only the rebalanced shards, the shard lists of all
      nodes add up to the number of shards times the number of replicas of each. */
  lemma {:induction false} RingConserves(h: Hasher, n: nat, nodes: seq<string>, replicas: nat)
    requires Distinct(nodes)
    ensures TotalShards(Assigned(h, n, nodes, replicas), nodes) == n * Min(replicas, |nodes|)
    decreases n
  {
    hide SelectReplicas, TotalShards, Decimal;
    if n == 0 {
      assert Assigned(h, n, nodes, replicas) == map[];
      NoShards(nodes);
    } else {
      var r := SelectReplicas(h, "shard-" + Decimal(n - 1), nodes, replicas);
      RingConserves(h, n - 1, nodes, replicas);
      SelectionSize(h, "shard-" + Decimal(n - 1), nodes, replicas);
      EveryReplicaHits(nodes, r);
      OneMoreShard(Assigned(h, n - 1, nodes, replicas), n - 1, r, nodes);
      AssignedNext(h, n - 1, nodes, replicas);
      assert n * |r| == (n - 1) * |r| + |r|;
    }
  }

  /** The same for a ring after rebalancing, if nothing was assigned by hand beyond its shards. */
  lemma RebalancedRingConserves(h: Hasher, ring: Ring, n: nat, nodes: seq<string>, replicas: nat)
    requires Distinct(nodes) && forall s :: s in ring ==> s < n
    ensures TotalShards(ring + Assigned(h, n, nodes, replicas), nodes) == n * Min(replicas, |nodes|)
  {
    hide SelectReplicas, Decimal;
    assert ring + Assigned(h, n, nodes, replicas) == Assigned(h, n, nodes, replicas);
    RingConserves(h, n, nodes, replicas);
  }

  lemma AssignedNext(h: Hasher, n: nat, nodes: seq<string>, replicas: nat)
    ensures Assigned(h, n + 1, nodes, replicas) ==
            Assigned(h, n, nodes, replicas)[n := SelectReplicas(h, "shard-" + Decimal(n), nodes, replicas)]
  {
    hide SelectReplicas, Decimal;
  }

  lemma {:induction false} NoShards(nodes: seq<string>)
    ensures TotalShards(map[], nodes) == 0
  {
    if nodes != [] {
      NoShards(nodes[1..]);
      assert ShardsOf(map[], nodes[0]) == {};
    }
  }

  // ---------- The placement manager ----------

  datatype NodeState = Alive | Suspect | Dead | Draining

  datatype Volume = Volume(id: string, state: NodeState)

  datatype Selection = Selected(volumes: seq<string>) | NoHealthyVolumes | InsufficientReplicas(needed: nat, available: nat)

  /** The ids of the volumes that are alive, in order. */
  function Healthy(volumes: seq<Volume>): seq<string> {
    if volumes == [] then []
    else (if volumes[0].state.Alive? then [volumes[0].id] else []) + Healthy(volumes[1..])
  }

  class PlacementManager {
    const ring: ConsistentHashRing
    const replicas: nat

    constructor (h: Hasher, numShards: nat, replicas: nat)
      ensures fresh(ring) && ring.h == h && ring.numShards == numShards && this.replicas == replicas
      ensures ring.shardToNodes == map[]
    {
      ring := new ConsistentHashRing(h, numShards);
      this.replicas := replicas;
    }

    /** Succeeds exactly when some volume is healthy and there are enough of them, and then returns the
        heaviest ones. */
    method SelectVolumes(key: string, volumes: seq<Volume>) returns (r: Selection)
      ensures r == NoHealthyVolumes <==> Healthy(volumes) == []
      ensures r.Selected? <==> Healthy(volumes) != [] && |Healthy(volumes)| >= replicas
      ensures r.Selected? ==> r.volumes == SelectReplicas(ring.h, key, Healthy(volumes), replicas) && |r.volumes| == replicas
      ensures r.InsufficientReplicas? ==> r.needed == replicas && r.available == |Healthy(volumes)|
    {
      if volumes == [] {
        return NoHealthyVolumes;
      }
      var healthy := Healthy(volumes);
      if healthy == [] {
        return NoHealthyVolumes;
      }
      var selected := SelectReplicas(ring.h, key, healthy, replicas);
      HrwMembers(ring.h, key, healthy);
      if |selected| < replicas {
        return InsufficientReplicas(replicas, |selected|);
      }
      return Selected(selected);
    }

    method Rebalance(volumes: seq<Volume>)
      modifies ring
      ensures ring.shardToNodes == old(ring.shardToNodes) + Assigned(ring.h, ring.numShards, Healthy(volumes), replicas)
    {
      ring.Rebalance(Healthy(volumes), replicas);
    }

    method GetShardVolumes(shard: nat) returns (r: Option<seq<string>>)
      ensures r == if shard in ring.shardToNodes then Some(ring.shardToNodes[shard]) else None
    {
      r := ring.GetShardNodes(shard);
    }
  }

  predicate DistinctIds(volumes: seq<Volume>) {
    forall i, j :: 0 <= i < j < |volumes| ==> volumes[i].id != volumes[j].id
  }

  lemma {:induction false} HealthyMembers(volumes: seq<Volume>, id: string)
    ensures id in Healthy(volumes) <==> exists i :: 0 <= i < |volumes| && volumes[i].id == id && volumes[i].state.Alive?
  {
    if volumes != [] {
      HealthyMembers(volumes[1..], id);
      if id in Healthy(volumes[1..]) {
        var i :| 0 <= i < |volumes[1..]| && volumes[1..][i].id == id && volumes[1..][i].state.Alive?;
        assert volumes[i + 1] == volumes[1..][i];
      }
      if exists i :: 0 <= i < |volumes| && volumes[i].id == id && volumes[i].state.Alive? {
        var i :| 0 <= i < |volumes| && volumes[i].id == id && volumes[i].state.Alive?;
        assert i > 0 ==> volumes[1..][i - 1] == volumes[i];
      }
    }
  }

  lemma {:induction false} HealthyDistinct(volumes: seq<Volume>)
    requires DistinctIds(volumes)
    ensures Distinct(Healthy(volumes))
  {
    if volumes != [] {
      HealthyDistinct(volumes[1..]);
      HealthyMembers(volumes[1..], volumes[0].id);
    }
  }

  /** A volume that stops being alive leaves the list of healthy volumes, and nothing else does. */
  lemma {:induction false} FailureRemovesOne(volumes: seq<Volume>, k: nat, state: NodeState)
    requires DistinctIds(volumes) && k < |volumes| && state != Alive
    ensures Healthy(volumes[k := volumes[k].(state := state)]) == Without(Healthy(volumes), volumes[k].id)
  {
    var x := volumes[k].id;
    var failed := volumes[k := volumes[k].(state := state)];
    HealthyMembers(volumes[1..], volumes[0].id);
    if k == 0 {
      assert failed[1..] == volumes[1..];
      FilterAll(Healthy(volumes[1..]), y => y != x);
      assert volumes[0].state.Alive? ==> Healthy(volumes)[1..] == Healthy(volumes[1..]);
      assert [] + Healthy(volumes[1..]) == Healthy(volumes[1..]);
    } else {
      assert failed[1..] == volumes[1..][k - 1 := volumes[k].(state := state)];
      FailureRemovesOne(volumes[1..], k - 1, state);
      FilterConcat(if volumes[0].state.Alive? then [volumes[0].id] else [], Healthy(volumes[1..]), y => y != x);
    }
  }

  /** When one volume fails and the manager rebalances, every shard it did not hold keeps its volumes,
      and every shard it held keeps the others in order and gains at most one. */
  lemma FailureMovesLittle(h: Hasher, numShards: nat, volumes: seq<Volume>, replicas: nat,
                           k: nat, state: NodeState, shard: nat)
    requires DistinctIds(volumes) && k < |volumes| && state != Alive && shard < numShards
    ensures var x := volumes[k].id;
            var before := Assigned(h, numShards, Healthy(volumes), replicas)[shard];
            var after := Assigned(h, numShards, Healthy(volumes[k := volumes[k].(state := state)]), replicas)[shard];
            && (x !in before ==> after == before)
            && Without(before, x) <= after && |after| <= |Without(before, x)| + 1 && x !in after
  {
    HealthyDistinct(volumes);
    FailureRemovesOne(volumes, k, state);
    RebalanceMovesLittle(h, numShards, Healthy(volumes), replicas, volumes[k].id, shard);
  }
}
