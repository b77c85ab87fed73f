/** What the clustering engine of connectivitymatrix.h guarantees, proved
    about the value-level functions of ClusteringSpec. */
module ClusteringProperties {
  import opened SortedSeqs
  import opened Graph
  import opened MatchMatrix
  import opened ClusteringSpec

  /* ---------------- reclusterNodes, first loop ---------------- */

  /** Every cluster of cs is the non-empty component of a node of pool that
      has an entry. */
  ghost predicate ComponentsOfPool(m: Adjacency, pool: seq<nat>, cs: seq<seq<nat>>) {
    forall j :: 0 <= j < |cs| ==>
      cs[j] != [] && exists x :: x in pool && x in m && cs[j] == Component(m, x)
  }

  /** No node lies in two clusters of cs. */
  predicate PairwiseDisjoint(cs: seq<seq<nat>>) {
    forall j, k :: 0 <= j < k < |cs| ==> Elems(cs[j]) !! Elems(cs[k])
  }

  /** Every node of pool that has an entry lies in some cluster of cs. */
  ghost predicate CoversPool(m: Adjacency, pool: seq<nat>, cs: seq<seq<nat>>) {
    forall y :: y in pool && y in m ==> exists j :: 0 <= j < |cs| && y in cs[j]
  }

  /** x lies in no cluster of cs. */
  predicate InNone(x: nat, cs: seq<seq<nat>>) {
    forall j :: 0 <= j < |cs| ==> x !in cs[j]
  }

  /** The membership of a sorted difference. */
  lemma DifferenceMembers(a: seq<nat>, b: seq<nat>)
    requires Sorted(a) && Sorted(b)
    ensures forall y :: y in Difference(a, b) <==> y in a && y !in b
  {
    forall y ensures y in Difference(a, b) <==> y in a && y !in b {
      assert y in Difference(a, b) <==> y in Elems(Difference(a, b));
      assert y in a <==> y in Elems(a);
      assert y in b <==> y in Elems(b);
    }
  }

  /** One turn of the pool loop: the last node either has no entry and is
      dropped with its assignment, or its non-empty component (which holds
      it) is collected and removed from the pool. */
  lemma SplitOffStep(m: Adjacency, a: map<nat, nat>, pool: seq<nat>)
    requires Sorted(pool) && pool != []
    ensures var x := pool[|pool| - 1];
      var cluster := Component(m, x);
      && (forall y :: y in pool <==> y in pool[..|pool| - 1] || y == x)
      && (cluster == [] <==> x !in m)
      && (cluster == [] ==> SplitOff(m, a, pool) == SplitOff(m, a - {x}, pool[..|pool| - 1]))
      && (cluster != [] ==>
            x in cluster &&
            SplitOff(m, a, pool) == (SplitOff(m, a, Difference(pool, cluster)).0,
                                     [cluster] + SplitOff(m, a, Difference(pool, cluster)).1))
  {
    var x := pool[|pool| - 1];
    assert pool == pool[..|pool| - 1] + [x];
    ComponentOfKey(m, x);
    if Component(m, x) != [] {
      assert x in Elems(Component(m, x));
    }
  }

  /** The pool loop erases exactly the assignments of the pool nodes that have
      no entry, and leaves every other assignment as it was. */
  lemma {:induction false} SplitOffAssignments(m: Adjacency, a: map<nat, nat>, pool: seq<nat>)
    requires Sorted(pool)
    ensures forall x :: x in SplitOff(m, a, pool).0 <==> x in a && !(x in pool && x !in m)
    ensures forall x :: x in SplitOff(m, a, pool).0 ==> SplitOff(m, a, pool).0[x] == a[x]
    decreases |pool|
  {
    if pool != [] {
      var x := pool[|pool| - 1];
      var cluster := Component(m, x);
      SplitOffStep(m, a, pool);
      if cluster == [] {
        SplitOffAssignments(m, a - {x}, pool[..|pool| - 1]);
      } else {
        var rest := Difference(pool, cluster);
        SplitOffAssignments(m, a, rest);
        DifferenceMembers(pool, cluster);
        ComponentKeys(m, x);
      }
    }
  }

  /** Only nodes with an entry lie in a component. */
  lemma ComponentKeys(m: Adjacency, x: nat)
    ensures forall y :: y in Component(m, x) ==> y in m
  {
    forall y | y in Component(m, x) ensures y in m {
      assert y in Elems(Component(m, x));
    }
  }

  /** Every collected cluster is the non-empty component of a pool node. */
  lemma {:induction false} SplitOffComponents(m: Adjacency, a: map<nat, nat>, pool: seq<nat>)
    requires Sorted(pool)
    ensures ComponentsOfPool(m, pool, SplitOff(m, a, pool).1)
    decreases |pool|
  {
    if pool != [] {
      var x := pool[|pool| - 1];
      var cluster := Component(m, x);
      SplitOffStep(m, a, pool);
      if cluster == [] {
        var prefix := pool[..|pool| - 1];
        SplitOffComponents(m, a - {x}, prefix);
        PoolWidens(m, prefix, pool, SplitOff(m, a, pool).1);
      } else {
        var rest := Difference(pool, cluster);
        SplitOffComponents(m, a, rest);
        DifferenceMembers(pool, cluster);
        PoolWidens(m, rest, pool, SplitOff(m, a, rest).1);
        ConsComponent(m, pool, x, SplitOff(m, a, rest).1);
      }
    }
  }

  /** Components of a smaller pool's nodes are components of a larger one's. */
  lemma PoolWidens(m: Adjacency, small: seq<nat>, large: seq<nat>, cs: seq<seq<nat>>)
    requires ComponentsOfPool(m, small, cs)
    requires forall y :: y in small ==> y in large
    ensures ComponentsOfPool(m, large, cs)
  {
    forall j | 0 <= j < |cs|
      ensures cs[j] != [] && exists x :: x in large && x in m && cs[j] == Component(m, x)
    {
      assert cs[j] != [] && exists x :: x in small && x in m && cs[j] == Component(m, x);
      var x :| x in small && x in m && cs[j] == Component(m, x);
      assert x in large;
    }
  }

  /** Putting a pool node's non-empty component in front keeps the property. */
  lemma ConsComponent(m: Adjacency, pool: seq<nat>, x: nat, cs: seq<seq<nat>>)
    requires ComponentsOfPool(m, pool, cs)
    requires x in pool && x in m
    ensures ComponentsOfPool(m, pool, [Component(m, x)] + cs)
  {
    ComponentOfKey(m, x);
    var all := [Component(m, x)] + cs;
    forall j | 0 <= j < |all| ensures all[j] != [] && exists y :: y in pool && y in m && all[j] == Component(m, y) {
      if j > 0 {
        assert all[j] == cs[j - 1];
      }
    }
  }

  /** A node of the pool that has an entry ends up in some collected cluster. */
  lemma {:induction false} SplitOffCovers(m: Adjacency, a: map<nat, nat>, pool: seq<nat>)
    requires Sorted(pool)
    ensures CoversPool(m, pool, SplitOff(m, a, pool).1)
    decreases |pool|
  {
    if pool != [] {
      var x := pool[|pool| - 1];
      var cluster := Component(m, x);
      var cs := SplitOff(m, a, pool).1;
      SplitOffStep(m, a, pool);
      if cluster == [] {
        SplitOffCovers(m, a - {x}, pool[..|pool| - 1]);
      } else {
        var rest := Difference(pool, cluster);
        var later := SplitOff(m, a, rest).1;
        SplitOffCovers(m, a, rest);
        DifferenceMembers(pool, cluster);
        forall y | y in pool && y in m ensures exists j :: 0 <= j < |cs| && y in cs[j] {
          if y in cluster {
            assert y in cs[0];
          } else {
            var j :| 0 <= j < |later| && y in later[j];
            assert y in cs[j + 1];
          }
        }
      }
    }
  }

  /** Two components of a symmetric table that are told apart by a node of
      one outside the other share no node. */
  lemma ComponentsApart(m: Adjacency, x: nat, y: nat)
    requires Symmetric(m) && y in m && y !in Component(m, x)
    ensures Elems(Component(m, x)) !! Elems(Component(m, y))
  {
    ComponentOfKey(m, y);
    ComponentsDisjointOrEqual(m, x, y);
    assert y in Elems(Component(m, y));
  }

  /** The node of the pool whose component a collected cluster is. */
  lemma SeedOf(m: Adjacency, pool: seq<nat>, cs: seq<seq<nat>>, j: nat) returns (y: nat)
    requires ComponentsOfPool(m, pool, cs) && j < |cs|
    ensures y in pool && y in m && cs[j] == Component(m, y)
  {
    assert cs[j] != [] && exists x :: x in pool && x in m && cs[j] == Component(m, x);
    y :| y in pool && y in m && cs[j] == Component(m, y);
  }

  /** A component apart from every seed of later, pairwise disjoint,
      components keeps them pairwise disjoint when put in front. */
  lemma ConsDisjoint(m: Adjacency, rest: seq<nat>, x: nat, later: seq<seq<nat>>)
    requires Symmetric(m) && PairwiseDisjoint(later) && ComponentsOfPool(m, rest, later)
    requires forall y :: y in rest ==> y !in Component(m, x)
    ensures PairwiseDisjoint([Component(m, x)] + later)
  {
    forall k | 0 <= k < |later| ensures Elems(Component(m, x)) !! Elems(later[k]) {
      var y := SeedOf(m, rest, later, k);
      ComponentsApart(m, x, y);
    }
    ConsPairwise(Component(m, x), later);
  }

  /** A cluster disjoint from each of a pairwise disjoint list keeps it so
      when put in front. */
  lemma ConsPairwise(c: seq<nat>, later: seq<seq<nat>>)
    requires PairwiseDisjoint(later)
    requires forall k :: 0 <= k < |later| ==> Elems(c) !! Elems(later[k])
    ensures PairwiseDisjoint([c] + later)
  {
    var cs := [c] + later;
    forall j, k | 0 <= j < k < |cs| ensures Elems(cs[j]) !! Elems(cs[k]) {
      assert cs[k] == later[k - 1];
      if j > 0 {
        assert cs[j] == later[j - 1];
      }
    }
  }

  /** The collected clusters are pairwise disjoint. */
  lemma {:induction false} SplitOffDisjoint(m: Adjacency, a: map<nat, nat>, pool: seq<nat>)
    requires Sorted(pool) && Symmetric(m)
    ensures PairwiseDisjoint(SplitOff(m, a, pool).1)
    decreases |pool|
  {
    if pool != [] {
      var x := pool[|pool| - 1];
      var cluster := Component(m, x);
      SplitOffStep(m, a, pool);
      if cluster == [] {
        SplitOffDisjoint(m, a - {x}, pool[..|pool| - 1]);
      } else {
        var rest := Difference(pool, cluster);
        SplitOffDisjoint(m, a, rest);
        SplitOffComponents(m, a, rest);
        DifferenceMembers(pool, cluster);
        ConsDisjoint(m, rest, x, SplitOff(m, a, rest).1);
      }
    }
  }

  /* ---------------- reclusterNodes, second loop ---------------- */

  /** createCluster for each collected cluster: consecutive fresh ids above
      the counter, one record per cluster, all older records kept. */
  lemma {:induction false} CreateClustersRecords(e: Engine, cs: seq<seq<nat>>)
    requires forall id :: id in e.clusterIdToCluster ==> id <= e.maxClusterId
    ensures var r := CreateClusters(e, cs);
      && (forall j :: 0 <= j < |cs| ==> r.1[j] == e.maxClusterId + 1 + j)
      && (forall j :: 0 <= j < |cs| ==> r.1[j] in r.0.clusterIdToCluster &&
                                        r.0.clusterIdToCluster[r.1[j]] == cs[j])
      && (forall id :: id in r.0.clusterIdToCluster <==>
                         id in e.clusterIdToCluster || e.maxClusterId < id <= e.maxClusterId + |cs|)
      && (forall id :: id in e.clusterIdToCluster ==> r.0.clusterIdToCluster[id] == e.clusterIdToCluster[id])
    decreases |cs|
  {
    if cs != [] {
      var e1 := CreateClusterSpec(e, cs[0]).0;
      CreateClustersRecords(e1, cs[1..]);
      var r := CreateClusters(e, cs);
      var rest := CreateClusters(e1, cs[1..]);
      assert r.1 == [e.maxClusterId + 1] + rest.1;
      forall j | 0 <= j < |cs|
        ensures r.1[j] in r.0.clusterIdToCluster && r.0.clusterIdToCluster[r.1[j]] == cs[j]
      {
        if j > 0 {
          assert cs[j] == cs[1..][j - 1];
        }
      }
    }
  }

  /** With pairwise disjoint clusters, every member of a created cluster
      maps to that cluster's id, and every other assignment is kept. */
  lemma {:induction false} CreateClustersAssignments(e: Engine, cs: seq<seq<nat>>)
    requires PairwiseDisjoint(cs)
    ensures forall j, x :: 0 <= j < |cs| && x in cs[j] ==>
              x in CreateClusters(e, cs).0.nodeIdToClusterId &&
              CreateClusters(e, cs).0.nodeIdToClusterId[x] == e.maxClusterId + 1 + j
    ensures forall x :: InNone(x, cs) ==>
              (x in CreateClusters(e, cs).0.nodeIdToClusterId <==> x in e.nodeIdToClusterId) &&
              (x in e.nodeIdToClusterId ==>
                 CreateClusters(e, cs).0.nodeIdToClusterId[x] == e.nodeIdToClusterId[x])
    decreases |cs|
  {
    if cs != [] {
      var e1 := CreateClusterSpec(e, cs[0]).0;
      var tail := cs[1..];
      DisjointTail(cs);
      CreateClustersAssignments(e1, tail);
      var r := CreateClusters(e, cs).0;
      assert r == CreateClusters(e1, tail).0;
      forall j, x | 0 <= j < |cs| && x in cs[j]
        ensures x in r.nodeIdToClusterId && r.nodeIdToClusterId[x] == e.maxClusterId + 1 + j
      {
        if j == 0 {
          assert InNone(x, tail);
        } else {
          assert x in tail[j - 1];
        }
      }
      forall x | InNone(x, cs)
        ensures (x in r.nodeIdToClusterId <==> x in e.nodeIdToClusterId) &&
                (x in e.nodeIdToClusterId ==> r.nodeIdToClusterId[x] == e.nodeIdToClusterId[x])
      {
        assert x !in cs[0] && InNone(x, tail);
      }
    }
  }

  /** Dropping the first cluster keeps the rest disjoint; a node of the first
      lies in none of the rest, and one in none of cs in none of the rest. */
  lemma DisjointTail(cs: seq<seq<nat>>)
    requires PairwiseDisjoint(cs) && cs != []
    ensures PairwiseDisjoint(cs[1..])
    ensures forall x :: x in cs[0] ==> InNone(x, cs[1..])
    ensures forall x :: InNone(x, cs) ==> x !in cs[0] && InNone(x, cs[1..])
  {
    var tail := cs[1..];
    forall j, k | 0 <= j < k < |tail| ensures Elems(tail[j]) !! Elems(tail[k]) {
      assert tail[j] == cs[j + 1] && tail[k] == cs[k + 1];
    }
    forall x, k | x in cs[0] && 0 <= k < |tail| ensures x !in tail[k] {
      assert tail[k] == cs[k + 1];
      assert x in Elems(cs[0]);
    }
    forall x, k | InNone(x, cs) && 0 <= k < |tail| ensures x !in tail[k] {
      assert tail[k] == cs[k + 1];
    }
  }

  /** The records the listed ids hold, in order. */
  function RecordsOf(recs: map<nat, seq<nat>>, ids: seq<nat>): (r: seq<seq<nat>>)
    ensures |r| == |ids|
    ensures forall j :: 0 <= j < |ids| ==> r[j] == Get(recs, ids[j])
  {
    seq(|ids|, j requires 0 <= j < |ids| => Get(recs, ids[j]))
  }

  /** Every member of a collected component has an entry. */
  lemma ComponentsHaveEntries(m: Adjacency, pool: seq<nat>, cs: seq<seq<nat>>)
    requires ComponentsOfPool(m, pool, cs)
    ensures forall j, y :: 0 <= j < |cs| && y in cs[j] ==> y in m
  {
    forall j, y | 0 <= j < |cs| && y in cs[j] ensures y in m {
      var x :| x in pool && x in m && cs[j] == Component(m, x);
      ComponentKeys(m, x);
    }
  }

  /** reclusterNodes, ids and records: one new cluster per collected
      component under consecutive fresh ids above the counter, every
      existing record kept. */
  lemma ReclusterRecords(e: Engine, pool: seq<nat>)
    requires EngineValid(e) && Sorted(pool)
    ensures var r := ReclusterSpec(e, pool);
      && r.0.matches == e.matches
      && r.0.maxClusterId == e.maxClusterId + |r.1|
      && (forall j :: 0 <= j < |r.1| ==> r.1[j] == e.maxClusterId + 1 + j)
      && RecordsOf(r.0.clusterIdToCluster, r.1) == SplitOff(e.matches, e.nodeIdToClusterId, pool).1
      && (forall id :: id in r.0.clusterIdToCluster <==>
            id in e.clusterIdToCluster || e.maxClusterId < id <= r.0.maxClusterId)
      && (forall id :: id in e.clusterIdToCluster ==>
            r.0.clusterIdToCluster[id] == e.clusterIdToCluster[id])
  {
    var a := e.nodeIdToClusterId;
    var split := SplitOff(e.matches, a, pool);
    var e1 := e.(nodeIdToClusterId := split.0);
    CreateClustersRecords(e1, split.1);
    var r := ReclusterSpec(e, pool);
    assert r == CreateClusters(e1, split.1);
    assert RecordsOf(r.0.clusterIdToCluster, r.1) == split.1;
  }

  /** reclusterNodes, the new clusters: each is the component of a node that
      left the surviving cluster and still has matches; they are pairwise
      disjoint; and together they hold every such node. */
  lemma ReclusterClusters(e: Engine, pool: seq<nat>)
    requires EngineValid(e) && Sorted(pool)
    ensures var r := ReclusterSpec(e, pool);
      var clusters := RecordsOf(r.0.clusterIdToCluster, r.1);
      && ComponentsOfPool(e.matches, pool, clusters)
      && PairwiseDisjoint(clusters)
      && CoversPool(e.matches, pool, clusters)
  {
    ReclusterRecords(e, pool);
    SplitOffComponents(e.matches, e.nodeIdToClusterId, pool);
    SplitOffDisjoint(e.matches, e.nodeIdToClusterId, pool);
    SplitOffCovers(e.matches, e.nodeIdToClusterId, pool);
  }

  /** reclusterNodes, assignments of the new clusters: each member of a new
      cluster maps to that cluster's id. */
  lemma ReclusterAssigns(e: Engine, pool: seq<nat>)
    requires EngineValid(e) && Sorted(pool)
    ensures var r := ReclusterSpec(e, pool);
      var clusters := RecordsOf(r.0.clusterIdToCluster, r.1);
      forall j, x :: 0 <= j < |r.1| && x in clusters[j] ==>
        x in r.0.nodeIdToClusterId && r.0.nodeIdToClusterId[x] == r.1[j]
  {
    var split := SplitOff(e.matches, e.nodeIdToClusterId, pool);
    var e1 := e.(nodeIdToClusterId := split.0);
    ReclusterRecords(e, pool);
    SplitOffDisjoint(e.matches, e.nodeIdToClusterId, pool);
    CreateClustersAssignments(e1, split.1);
    assert ReclusterSpec(e, pool) == CreateClusters(e1, split.1);
  }

  /** reclusterNodes, the other assignments: pool nodes with no matches lose
      their assignment, and every node outside the new clusters otherwise
      keeps its assignment. */
  lemma ReclusterKeeps(e: Engine, pool: seq<nat>)
    requires EngineValid(e) && Sorted(pool)
    ensures var r := ReclusterSpec(e, pool);
      var clusters := RecordsOf(r.0.clusterIdToCluster, r.1);
      && (forall x :: x in pool && x !in e.matches ==> x !in r.0.nodeIdToClusterId)
      && (forall x :: InNone(x, clusters) && !(x in pool && x !in e.matches) ==>
            (x in r.0.nodeIdToClusterId <==> x in e.nodeIdToClusterId) &&
            (x in e.nodeIdToClusterId ==> r.0.nodeIdToClusterId[x] == e.nodeIdToClusterId[x]))
  {
    var m := e.matches;
    var a := e.nodeIdToClusterId;
    var split := SplitOff(m, a, pool);
    var cs := split.1;
    var e1 := e.(nodeIdToClusterId := split.0);
    ReclusterRecords(e, pool);
    SplitOffAssignments(m, a, pool);
    SplitOffComponents(m, a, pool);
    SplitOffDisjoint(m, a, pool);
    CreateClustersAssignments(e1, cs);
    ComponentsHaveEntries(m, pool, cs);
    var r := ReclusterSpec(e, pool);
    assert r == CreateClusters(e1, cs);
    forall x | x in pool && x !in m ensures x !in r.0.nodeIdToClusterId {
      assert InNone(x, cs);
    }
  }

  /* ---------------- the standing invariant ---------------- */

  /** createCluster, repeated, keeps the invariant when every new record is
      ascending. */
  lemma {:induction false} CreateClustersValid(e: Engine, cs: seq<seq<nat>>)
    requires EngineValid(e)
    requires forall j :: 0 <= j < |cs| ==> Sorted(cs[j])
    ensures EngineValid(CreateClusters(e, cs).0)
    decreases |cs|
  {
    if cs != [] {
      var e1 := CreateClusterSpec(e, cs[0]).0;
      assert EngineValid(e1);
      CreateClustersValid(e1, cs[1..]);
    }
  }

  /** reclusterNodes keeps the invariant and never lowers the counter. */
  lemma ReclusterValid(e: Engine, pool: seq<nat>)
    requires EngineValid(e) && Sorted(pool)
    ensures EngineValid(ReclusterSpec(e, pool).0)
    ensures ReclusterSpec(e, pool).0.maxClusterId >= e.maxClusterId
  {
    var m := e.matches;
    var a := e.nodeIdToClusterId;
    var split := SplitOff(m, a, pool);
    var e1 := e.(nodeIdToClusterId := split.0);
    SplitOffAssignments(m, a, pool);
    assert EngineValid(e1);
    SplitOffComponents(m, a, pool);
    forall j | 0 <= j < |split.1| ensures Sorted(split.1[j]) {
      var y := SeedOf(m, pool, split.1, j);
    }
    CreateClustersValid(e1, split.1);
    assert ReclusterSpec(e, pool) == CreateClusters(e1, split.1);
  }

  /** The clustered branch keeps the invariant (clusterId, being some
      node's cluster, is no larger than the counter). */
  lemma ClusteredValid(e: Engine, clusterId: nat, updated: seq<nat>)
    requires EngineValid(e) && Sorted(updated) && clusterId <= e.maxClusterId
    ensures EngineValid(ClusteredSpec(e, clusterId, updated).0)
    ensures ClusteredSpec(e, clusterId, updated).0.maxClusterId >= e.maxClusterId
    ensures ClusteredSpec(e, clusterId, updated).0.matches == e.matches
  {
    var outdated := Get(e.clusterIdToCluster, clusterId);
    var newNodes := Difference(updated, outdated);
    var removedNodes := Difference(outdated, updated);
    var removedClusters := SortedSeqOf(ClusterIdsOf(e.nodeIdToClusterId, newNodes));
    var e1 := e.(clusterIdToCluster := e.clusterIdToCluster - Elems(removedClusters));
    assert EngineValid(e1);
    var pool := ReclusterPool(e, clusterId, updated);
    ReclusterValid(e1, pool);
    ReclusterRecords(e1, pool);
  }

  /** Every branch of updateClustering keeps the invariant, leaves the store
      alone and never lowers the counter. */
  lemma UpdateClusteringValid(e: Engine, probe: nat, cluster: seq<nat>)
    requires EngineValid(e) && Sorted(cluster)
    ensures EngineValid(UpdateClusteringSpec(e, probe, cluster).0)
    ensures UpdateClusteringSpec(e, probe, cluster).0.maxClusterId >= e.maxClusterId
    ensures UpdateClusteringSpec(e, probe, cluster).0.matches == e.matches
  {
    var i := FindClustered(e.nodeIdToClusterId, cluster);
    if i < |cluster| {
      ClusteredValid(e, e.nodeIdToClusterId[cluster[i]], cluster);
    }
  }

  /** updateMatches keeps the invariant and never lowers the counter: ids
      handed out later are fresh. */
  lemma UpdateMatchesValid(e: Engine, probe: nat, updated: seq<nat>)
    requires EngineValid(e) && Sorted(updated)
    ensures EngineValid(UpdateMatchesSpec(e, probe, updated).0)
    ensures UpdateMatchesSpec(e, probe, updated).0.maxClusterId >= e.maxClusterId
    ensures UpdateMatchesSpec(e, probe, updated).0.matches == SetMatchesSpec(e.matches, probe, updated)
  {
    var m := SetMatchesSpec(e.matches, probe, updated);
    SetMatchesWellFormed(e.matches, probe, updated);
    UpdateClusteringValid(e.(matches := m), probe, Component(m, probe));
  }

  /** The init loop keeps the invariant and leaves the counter at least as
      large as every id it was given. */
  lemma {:induction false} InitFromValid(e: Engine, clusters: seq<(nat, seq<nat>)>)
    requires EngineValid(e) && ListsSorted(clusters)
    ensures EngineValid(InitFrom(e, clusters))
    ensures InitFrom(e, clusters).maxClusterId >= e.maxClusterId
    ensures forall i :: 0 <= i < |clusters| ==> clusters[i].0 <= InitFrom(e, clusters).maxClusterId
    decreases |clusters|
  {
    if clusters != [] {
      var id := clusters[0].0;
      var e1 := InitClusterSpec(e, id, clusters[0].1);
      var e2 := e1.(maxClusterId := Max(e1.maxClusterId, id));
      assert EngineValid(e2);
      InitFromValid(e2, clusters[1..]);
      forall i | 0 <= i < |clusters| ensures clusters[i].0 <= InitFrom(e, clusters).maxClusterId {
        if i > 0 {
          assert clusters[i] == clusters[1..][i - 1];
        }
      }
    }
  }

  /** init leaves a valid engine whose counter is at least every given id,
      so ids created afterwards collide with none of them. */
  lemma InitValid(clusters: seq<(nat, seq<nat>)>)
    requires ListsSorted(clusters)
    ensures EngineValid(InitSpec(clusters))
    ensures forall i :: 0 <= i < |clusters| ==> clusters[i].0 <= InitSpec(clusters).maxClusterId
  {
    InitFromValid(EmptyEngine, clusters);
  }
}
