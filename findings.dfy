/** Three places where connectivitymatrix.h, as written, leaves its state
    disagreeing with its own report: a node is reported as joining a
    cluster yet stays unassigned, and a cluster is reported removed yet
    some node still maps to its id. Each is modelled here exactly as
    written, next to an input that shows the difference; the rest of the
    model (ClusteringSpec, the ConnectivityMatrix class and the Partition
    module) uses the corrected behaviour. */
module Findings {
  import opened SortedSeqs
  import opened Graph
  import opened MatchMatrix
  import opened ClusteringSpec
  import opened ClusteringProperties
  import opened UpdateProperties

  /* ---------------- the branches as written ---------------- */

  /** updateClusteringForRemovedProbe as written: the retired cluster's
      record is erased, but only the probe's own assignment is. */
  function RemovedProbeAsWritten(e: Engine, probe: nat): (r: (Engine, ClusteringUpdate))
    ensures r.1 == RemovedProbeSpec(e, probe).1
    ensures r.0.clusterIdToCluster == RemovedProbeSpec(e, probe).0.clusterIdToCluster
    ensures probe in e.nodeIdToClusterId ==>
              forall x :: x in r.0.nodeIdToClusterId <==> x in e.nodeIdToClusterId && x != probe
  {
    if probe in e.nodeIdToClusterId then
      var removedClusterId := e.nodeIdToClusterId[probe];
      (e.(clusterIdToCluster := e.clusterIdToCluster - {removedClusterId},
          nodeIdToClusterId := e.nodeIdToClusterId - {probe}),
       ClusteringUpdate(map[], [removedClusterId]))
    else
      (e, NoUpdate)
  }

  /** updateClusteringForClusteredNodes as written: newNodes is swapped into
      the report entry of clusterId before setCluster runs, so setCluster
      receives what that entry held before, which is nothing whenever
      clusterId was not among the re-clustered ids. */
  ghost function ClusteredAsWritten(e: Engine, clusterId: nat, updated: seq<nat>): (r: (Engine, ClusteringUpdate))
    requires EngineValid(e) && Sorted(updated)
  {
    var outdated := Get(e.clusterIdToCluster, clusterId);
    var newNodes := Difference(updated, outdated);
    var removedNodes := Difference(outdated, updated);
    var removedClusters := SortedSeqOf(ClusterIdsOf(e.nodeIdToClusterId, newNodes));
    var e1 := e.(clusterIdToCluster := e.clusterIdToCluster - Elems(removedClusters));
    var reclustered := ReclusterSpec(e1, removedNodes);
    var e2 := reclustered.0;
    var reported := ReportNew(e2.clusterIdToCluster, reclustered.1);
    var swapped := if clusterId in reported then reported[clusterId].newMatches else [];
    var updates := reported[clusterId := ClusterUpdate(newNodes, removedNodes)];
    (e2.(nodeIdToClusterId := Assign(e2.nodeIdToClusterId, swapped, clusterId),
         clusterIdToCluster := e2.clusterIdToCluster[clusterId := updated]),
     ClusteringUpdate(updates, removedClusters))
  }

  /** updateClustering as written. */
  ghost function UpdateClusteringAsWritten(e: Engine, probe: nat, cluster: seq<nat>): (r: (Engine, ClusteringUpdate))
    requires EngineValid(e) && Sorted(cluster)
  {
    var i := FindClustered(e.nodeIdToClusterId, cluster);
    if i == |cluster| then
      if cluster == [] then RemovedProbeAsWritten(e, probe) else NewNodesSpec(e, cluster)
    else
      ClusteredAsWritten(e, e.nodeIdToClusterId[cluster[i]], cluster)
  }

  /** updateMatches as written. */
  ghost function UpdateMatchesAsWritten(e: Engine, probe: nat, updated: seq<nat>): (r: (Engine, ClusteringUpdate))
    requires EngineValid(e) && Sorted(updated)
  {
    var m := SetMatchesSpec(e.matches, probe, updated);
    SetMatchesWellFormed(e.matches, probe, updated);
    UpdateClusteringAsWritten(e.(matches := m), probe, Component(m, probe))
  }

  /** The clustered branch as written, in terms of reclusterNodes on the
      survivor's dropped nodes alone: the report and the records are those
      of the corrected branch's shape, and the assignments are exactly those
      reclusterNodes leaves, with none added for clusterId. */
  lemma ClusteredAsWrittenParts(e: Engine, clusterId: nat, updated: seq<nat>) returns (e1: Engine, left: seq<nat>)
    requires EngineValid(e) && Sorted(updated) && clusterId <= e.maxClusterId
    ensures EngineValid(e1) && Sorted(left)
    ensures e1.nodeIdToClusterId == e.nodeIdToClusterId && e1.matches == e.matches
    ensures left == Difference(Get(e.clusterIdToCluster, clusterId), updated)
    ensures var outdated := Get(e.clusterIdToCluster, clusterId);
      var rc := ReclusterSpec(e1, left);
      var r := ClusteredAsWritten(e, clusterId, updated);
      && e1.clusterIdToCluster == e.clusterIdToCluster - Elems(r.1.removedClusters)
      && r.1.removedClusters == SortedSeqOf(ClusterIdsOf(e.nodeIdToClusterId, Difference(updated, outdated)))
      && clusterId in r.1.clusterUpdates
      && r.1.clusterUpdates[clusterId] == ClusterUpdate(Difference(updated, outdated), left)
      && r.0.clusterIdToCluster == rc.0.clusterIdToCluster[clusterId := updated]
      && r.0.nodeIdToClusterId == rc.0.nodeIdToClusterId
      && r.0.maxClusterId == rc.0.maxClusterId && r.0.matches == rc.0.matches
  {
    var outdated := Get(e.clusterIdToCluster, clusterId);
    var newNodes := Difference(updated, outdated);
    left := Difference(outdated, updated);
    var removedClusters := SortedSeqOf(ClusterIdsOf(e.nodeIdToClusterId, newNodes));
    e1 := e.(clusterIdToCluster := e.clusterIdToCluster - Elems(removedClusters));
    assert EngineValid(e1);
    var rc := ReclusterSpec(e1, left);
    var reported := ReportNew(rc.0.clusterIdToCluster, rc.1);
    assert clusterId !in reported by {
      ReclusterRecords(e1, left);
    }
    var a := rc.0.nodeIdToClusterId;
    assert Assign(a, [], clusterId) == a;
  }

  /** The clustered branch as written keeps the invariant, the store and
      a counter that never drops. */
  lemma ClusteredAsWrittenValid(e: Engine, clusterId: nat, updated: seq<nat>)
    requires EngineValid(e) && Sorted(updated) && clusterId <= e.maxClusterId
    ensures EngineValid(ClusteredAsWritten(e, clusterId, updated).0)
    ensures ClusteredAsWritten(e, clusterId, updated).0.maxClusterId >= e.maxClusterId
    ensures ClusteredAsWritten(e, clusterId, updated).0.matches == e.matches
  {
    var e1, left := ClusteredAsWrittenParts(e, clusterId, updated);
    ReclusterValid(e1, left);
  }

  /** Every branch of updateClustering as written keeps the invariant,
      the store and a counter that never drops. */
  lemma UpdateClusteringAsWrittenValid(e: Engine, probe: nat, cluster: seq<nat>)
    requires EngineValid(e) && Sorted(cluster)
    ensures EngineValid(UpdateClusteringAsWritten(e, probe, cluster).0)
    ensures UpdateClusteringAsWritten(e, probe, cluster).0.maxClusterId >= e.maxClusterId
    ensures UpdateClusteringAsWritten(e, probe, cluster).0.matches == e.matches
  {
    var i := FindClustered(e.nodeIdToClusterId, cluster);
    if i < |cluster| {
      ClusteredAsWrittenValid(e, e.nodeIdToClusterId[cluster[i]], cluster);
    }
  }

  /** updateMatches as written keeps the invariant too: the defects below
      concern which nodes keep an assignment, not the sortedness of the
      records or the bound on their ids. */
  lemma UpdateMatchesAsWrittenValid(e: Engine, probe: nat, updated: seq<nat>)
    requires EngineValid(e) && Sorted(updated)
    ensures EngineValid(UpdateMatchesAsWritten(e, probe, updated).0)
    ensures UpdateMatchesAsWritten(e, probe, updated).0.maxClusterId >= e.maxClusterId
    ensures UpdateMatchesAsWritten(e, probe, updated).0.matches == SetMatchesSpec(e.matches, probe, updated)
  {
    var m := SetMatchesSpec(e.matches, probe, updated);
    SetMatchesWellFormed(e.matches, probe, updated);
    UpdateClusteringAsWrittenValid(e.(matches := m), probe, Component(m, probe));
  }

  /* ---------------- the inputs that show them ---------------- */

  /** Nodes 1 and 2 matched with each other. */
  const Chain: Adjacency := map[1 := [2], 2 := [1]]

  /** The chain on file as cluster 1. */
  const ChainClustered: Engine := Engine(Chain, map[1 := 1, 2 := 1], map[1 := [1, 2]], 1)

  lemma ChainClusteredValid()
    ensures EngineValid(ChainClustered)
  {
    ChainWellFormed();
    assert Sorted([1, 2]);
  }

  /** The chain is a well-formed store. */
  lemma ChainWellFormed()
    ensures WellFormed(Chain)
  {
    assert Sorted([2]) && Sorted([1]);
    forall a, b | Adjacent(Chain, a, b) ensures Adjacent(Chain, b, a) {
      if a == 1 {
        assert b == 2;
      } else {
        assert a == 2 && b == 1;
      }
    }
  }

  /** Matching node 3 with node 2 adds the edge 2-3 to the chain. */
  lemma ThirdAdjacency(v: nat, w: nat)
    ensures WellFormed(SetMatchesSpec(Chain, 3, [2]))
    ensures Adjacent(SetMatchesSpec(Chain, 3, [2]), v, w) <==> PathEdge(v, w)
  {
    ChainWellFormed();
    SetMatchesWellFormed(Chain, 3, [2]);
    SetMatchesAdjacency(Chain, 3, [2], v, w);
    if v == 3 {
      assert w in [2] <==> w == 2;
    } else if w == 3 {
      assert v in [2] <==> v == 2;
    } else if v == 1 {
      assert Adjacent(Chain, 1, w) <==> w == 2 by {
        assert Chain[1] == [2];
      }
    } else if v == 2 {
      assert Adjacent(Chain, 2, w) <==> w == 1 by {
        assert Chain[2] == [1];
      }
    }
  }

  /** Matching node 3 with node 2 joins it to the chain's component. */
  lemma ThirdJoinsChain()
    ensures WellFormed(SetMatchesSpec(Chain, 3, [2]))
    ensures Component(SetMatchesSpec(Chain, 3, [2]), 3) == [1, 2, 3]
  {
    var m := SetMatchesSpec(Chain, 3, [2]);
    ThirdAdjacency(0, 0);
    forall v, w ensures Adjacent(m, v, w) <==> PathEdge(v, w) {
      ThirdAdjacency(v, w);
    }
    PathComponent(m);
  }

  /** An edge of the path 1-2-3. */
  predicate PathEdge(v: nat, w: nat) {
    (v == 1 && w == 2) || (v == 2 && w == 1) || (v == 2 && w == 3) || (v == 3 && w == 2)
  }

  /** In the path 1-2-3, the component of 3 is all three nodes. */
  lemma PathComponent(m: Adjacency)
    requires forall v, w :: Adjacent(m, v, w) <==> PathEdge(v, w)
    ensures Component(m, 3) == [1, 2, 3]
  {
    assert Adjacent(m, 3, 2) && Adjacent(m, 2, 1) && Adjacent(m, 1, 2);
    ReachableSelf(m, 3);
    ReachableStep(m, 3, 3, 2);
    ReachableStep(m, 3, 2, 1);
    ThreeComponent(m);
  }

  /** When every match is among the nodes 1, 2 and 3 and node 3 reaches
      all three, the component of 3 is exactly those nodes. */
  lemma ThreeComponent(m: Adjacency)
    requires forall v, w :: Adjacent(m, v, w) ==> 1 <= w <= 3
    requires Reachable(m, 3, 1) && Reachable(m, 3, 2) && Reachable(m, 3, 3)
    requires 1 in m && 2 in m && 3 in m
    ensures Component(m, 3) == [1, 2, 3]
  {
    var s: set<nat> := {1, 2, 3};
    forall x | x in ComponentSet(m, 3) ensures x in s {
      ClosedSetHoldsReachable(m, s, 3, x);
    }
    assert 1 in ComponentSet(m, 3) && 2 in ComponentSet(m, 3) && 3 in ComponentSet(m, 3);
    assert ComponentSet(m, 3) == s;
    OneTwoThree(Component(m, 3));
  }

  /** The only ascending sequence of the nodes 1, 2 and 3. */
  lemma OneTwoThree(c: seq<nat>)
    requires Sorted(c) && Elems(c) == {1, 2, 3}
    ensures c == [1, 2, 3]
  {
    assert Elems([1, 2, 3]) == {1, 2, 3};
    SortedUnique(c, [1, 2, 3]);
  }

  /** Finding 1, as written: with the chain on file as cluster 1, matching
      a new node 3 with node 2 records [1, 2, 3] as cluster 1 and reports 3
      as joining it, but leaves node 3 without a cluster. */
  lemma NewNodeLeftUnassigned()
    ensures ChainClustered.maxClusterId == 1 && EngineValid(ChainClustered)
    ensures var r := UpdateMatchesAsWritten(ChainClustered, 3, [2]);
      && 1 in r.0.clusterIdToCluster && r.0.clusterIdToCluster[1] == [1, 2, 3]
      && 1 in r.1.clusterUpdates && 3 in r.1.clusterUpdates[1].newMatches
      && 3 !in r.0.nodeIdToClusterId
  {
    ChainClusteredValid();
    ThirdJoinsChain();
    var e := ChainClustered.(matches := SetMatchesSpec(Chain, 3, [2]));
    assert EngineValid(e);
    assert FindClustered(e.nodeIdToClusterId, [1, 2, 3]) == 0;
    var e1, left := ClusteredAsWrittenParts(e, 1, [1, 2, 3]);
    DifferenceMembers([1, 2, 3], [1, 2]);
    DifferenceMembers([1, 2], [1, 2, 3]);
    assert Elems(left) == Elems([]);
    SortedUnique(left, []);
    assert ReclusterSpec(e1, []).0.nodeIdToClusterId == e.nodeIdToClusterId;
  }

  /** Finding 1, corrected: the same input assigns node 3 to cluster 1. */
  lemma NewNodeAssigned()
    ensures EngineValid(ChainClustered)
    ensures var r := UpdateMatchesSpec(ChainClustered, 3, [2]);
      && 1 in r.0.clusterIdToCluster && r.0.clusterIdToCluster[1] == [1, 2, 3]
      && 1 in r.1.clusterUpdates && 3 in r.1.clusterUpdates[1].newMatches
      && 3 in r.0.nodeIdToClusterId && r.0.nodeIdToClusterId[3] == 1
  {
    ChainClusteredValid();
    ThirdJoinsChain();
    var e := ChainClustered.(matches := SetMatchesSpec(Chain, 3, [2]));
    assert EngineValid(e);
    assert FindClustered(e.nodeIdToClusterId, [1, 2, 3]) == 0;
    ClusteredReport(e, 1, [1, 2, 3]);
    ClusteredAssignsNewNodes(e, 1, [1, 2, 3]);
  }

  /** Finding 2, as written: with the chain on file as cluster 1, emptying
      node 2's list retires cluster 1, yet node 1 still maps to it. */
  lemma PartnerKeepsRetiredId()
    ensures EngineValid(ChainClustered)
    ensures var r := UpdateMatchesAsWritten(ChainClustered, 2, []);
      && r.1.removedClusters == [1]
      && 1 !in r.0.clusterIdToCluster
      && 1 in r.0.nodeIdToClusterId && r.0.nodeIdToClusterId[1] == 1
  {
    ChainClusteredValid();
    var m := SetMatchesSpec(Chain, 2, []);
    SetMatchesEntry(Chain, 2, [], 2);
    SetMatchesWellFormed(Chain, 2, []);
    ComponentOfKey(m, 2);
  }

  /** Every assigned node is listed in the record of its cluster. */
  ghost predicate AssignedListed(e: Engine) {
    forall x :: x in e.nodeIdToClusterId ==> x in Get(e.clusterIdToCluster, e.nodeIdToClusterId[x])
  }

  /** Finding 2, corrected: once every assigned node is listed in its
      cluster's record, tearing a cluster down leaves no node mapped to the
      retired id, and every assigned node is still listed in its record.
      Every partitioned state meets the requirement (see the Partition
      module), and updateMatches keeps the partition. */
  lemma TeardownRetiresId(e: Engine, probe: nat)
    requires AssignedListed(e) && probe in e.nodeIdToClusterId
    ensures var r := RemovedProbeSpec(e, probe);
      && r.1.removedClusters == [e.nodeIdToClusterId[probe]]
      && (forall x :: x in r.0.nodeIdToClusterId ==> r.0.nodeIdToClusterId[x] != e.nodeIdToClusterId[probe])
      && AssignedListed(r.0)
  {
    var id := e.nodeIdToClusterId[probe];
    var r := RemovedProbeSpec(e, probe);
    forall x | x in r.0.nodeIdToClusterId
      ensures r.0.nodeIdToClusterId[x] != id
      ensures x in Get(r.0.clusterIdToCluster, r.0.nodeIdToClusterId[x])
    {
      assert x in e.nodeIdToClusterId && r.0.nodeIdToClusterId[x] == e.nodeIdToClusterId[x];
      assert x !in Elems(Get(e.clusterIdToCluster, id));
    }
  }

  /** Finding 2, the same input corrected: the chain's nodes both lose
      their cluster. */
  lemma ChainFullyReleased()
    ensures EngineValid(ChainClustered)
    ensures var r := UpdateMatchesSpec(ChainClustered, 2, []);
      r.1.removedClusters == [1] && r.0.clusterIdToCluster == map[] && r.0.nodeIdToClusterId == map[]
  {
    ChainClusteredValid();
    EmptyListTearsDown(ChainClustered, 2);
    assert Elems([1, 2]) == {1, 2};
  }

  /** Two matched pairs: 1 with 2 and 3 with 4. */
  const Pairs: Adjacency := map[1 := [2], 2 := [1], 3 := [4], 4 := [3]]

  /** The pairs on file as clusters 1 and 2. */
  const PairsClustered: Engine :=
    Engine(Pairs, map[1 := 1, 2 := 1, 3 := 2, 4 := 2], map[1 := [1, 2], 2 := [3, 4]], 2)

  lemma PairsClusteredValid()
    ensures EngineValid(PairsClustered)
  {
    PairsWellFormed();
    assert Sorted([1, 2]) && Sorted([3, 4]);
  }

  /** The pairs are a well-formed store: each list sorted and non-empty,
      and each edge listed both ways. */
  lemma PairsWellFormed()
    ensures WellFormed(Pairs)
  {
    assert Sorted([2]) && Sorted([1]) && Sorted([4]) && Sorted([3]);
    forall a, b | Adjacent(Pairs, a, b) ensures Adjacent(Pairs, b, a) {
      if a == 1 {
        assert b == 2;
      } else if a == 2 {
        assert b == 1;
      } else if a == 3 {
        assert b == 4;
      } else {
        assert a == 4 && b == 3;
      }
    }
  }

  /** An edge of the star with centre 1 and leaves 2 and 3. */
  predicate StarEdge(v: nat, w: nat) {
    (v == 1 && w == 2) || (v == 2 && w == 1) || (v == 1 && w == 3) || (v == 3 && w == 1)
  }

  /** Matching node 3 with node 1 instead of node 4 leaves the edges 1-2
      and 1-3, and node 4 without an entry. */
  lemma RewiredAdjacency(v: nat, w: nat)
    ensures WellFormed(SetMatchesSpec(Pairs, 3, [1]))
    ensures Adjacent(SetMatchesSpec(Pairs, 3, [1]), v, w) <==> StarEdge(v, w)
  {
    PairsWellFormed();
    SetMatchesWellFormed(Pairs, 3, [1]);
    SetMatchesAdjacency(Pairs, 3, [1], v, w);
    if v == 3 {
      assert w in [1] <==> w == 1;
    } else if w == 3 {
      assert v in [1] <==> v == 1;
    } else {
      PairsAdjacency(v, w);
    }
  }

  /** Away from node 3, the pairs hold only the edge 1-2. */
  lemma PairsAdjacency(v: nat, w: nat)
    requires v != 3 && w != 3
    ensures Adjacent(Pairs, v, w) <==> (v == 1 && w == 2) || (v == 2 && w == 1)
  {
    if v == 4 {
      assert Pairs[4] == [3];
    } else if v == 1 {
      assert Pairs[1] == [2];
    } else if v == 2 {
      assert Pairs[2] == [1];
    }
  }

  /** The rewiring leaves node 4 without matches, so without an entry. */
  lemma RewiredDropsFour()
    ensures 4 !in SetMatchesSpec(Pairs, 3, [1])
  {
    PairsWellFormed();
    var m := SetMatchesSpec(Pairs, 3, [1]);
    assert 4 !in [1] && 4 in Get(Pairs, 3) by {
      assert Get(Pairs, 3) == [4];
    }
    SetMatchesEntry(Pairs, 3, [1], 4);
    assert Elems(Get(Pairs, 4)) - {3} == {} by {
      assert Get(Pairs, 4) == [3];
    }
  }

  /** After the rewiring, the component of 3 is the star 1, 2, 3. */
  lemma RewiredComponent()
    ensures WellFormed(SetMatchesSpec(Pairs, 3, [1]))
    ensures Component(SetMatchesSpec(Pairs, 3, [1]), 3) == [1, 2, 3]
    ensures 4 !in SetMatchesSpec(Pairs, 3, [1])
  {
    var m := SetMatchesSpec(Pairs, 3, [1]);
    RewiredAdjacency(0, 0);
    RewiredDropsFour();
    forall v, w ensures Adjacent(m, v, w) <==> StarEdge(v, w) {
      RewiredAdjacency(v, w);
    }
    StarComponent(m);
  }

  /** In the star with centre 1 and leaves 2 and 3, the component of 3 is
      all three nodes. */
  lemma StarComponent(m: Adjacency)
    requires forall v, w :: Adjacent(m, v, w) <==> StarEdge(v, w)
    ensures Component(m, 3) == [1, 2, 3]
  {
    assert Adjacent(m, 3, 1) && Adjacent(m, 1, 2) && Adjacent(m, 2, 1);
    ReachableSelf(m, 3);
    ReachableStep(m, 3, 3, 1);
    ReachableStep(m, 3, 1, 2);
    ThreeComponent(m);
  }

  /** Finding 3, as written: with the pairs on file as clusters 1 and 2,
      matching node 3 with node 1 instead of node 4 merges 3 into cluster 1
      and retires cluster 2, but node 4, which has no matches left, still
      maps to the retired id. */
  lemma DonorMemberKeepsRetiredId()
    ensures EngineValid(PairsClustered)
    ensures var r := UpdateMatchesAsWritten(PairsClustered, 3, [1]);
      && r.1.removedClusters == [2]
      && 2 !in r.0.clusterIdToCluster
      && 4 !in r.0.matches
      && 4 in r.0.nodeIdToClusterId && r.0.nodeIdToClusterId[4] == 2
  {
    PairsClusteredValid();
    RewiredComponent();
    var e := PairsClustered.(matches := SetMatchesSpec(Pairs, 3, [1]));
    assert EngineValid(e);
    assert FindClustered(e.nodeIdToClusterId, [1, 2, 3]) == 0;
    var e1, left := ClusteredAsWrittenParts(e, 1, [1, 2, 3]);
    MergeInputsOfPairs();
    assert Elems(left) == Elems([]);
    SortedUnique(left, []);
    assert ReclusterSpec(e1, []).0.nodeIdToClusterId == e.nodeIdToClusterId;
    assert ReclusterSpec(e1, []).0.clusterIdToCluster == e1.clusterIdToCluster;
  }

  /** The clustered branch on the rewired pairs: node 3 is the only new
      node, its cluster 2 is the only donor, and the survivor drops
      nothing. */
  lemma MergeInputsOfPairs()
    ensures Difference([1, 2, 3], [1, 2]) == [3]
    ensures Difference([1, 2], [1, 2, 3]) == []
    ensures SortedSeqOf(ClusterIdsOf(PairsClustered.nodeIdToClusterId, [3])) == [2]
  {
    DifferenceMembers([1, 2, 3], [1, 2]);
    DifferenceMembers([1, 2], [1, 2, 3]);
    assert Elems(Difference([1, 2, 3], [1, 2])) == Elems([3]);
    SortedUnique(Difference([1, 2, 3], [1, 2]), [3]);
    assert Elems(Difference([1, 2], [1, 2, 3])) == Elems([]);
    SortedUnique(Difference([1, 2], [1, 2, 3]), []);
    var a := PairsClustered.nodeIdToClusterId;
    assert 3 in [3] && 3 in a && a[3] == 2;
    assert 2 in ClusterIdsOf(a, [3]);
    forall d | d in ClusterIdsOf(a, [3]) ensures d == 2 {
      var x :| x in [3] && x in a && a[x] == d;
      assert x == 3;
    }
    assert ClusterIdsOf(a, [3]) == {2};
    assert Elems([2]) == {2};
    SortedUnique(SortedSeqOf({2}), [2]);
  }

  /** Finding 3, the same input corrected: the stranded member 4 is
      re-clustered, and having no matches it is released. */
  lemma DonorMemberReleased()
    ensures EngineValid(PairsClustered)
    ensures var r := UpdateMatchesSpec(PairsClustered, 3, [1]);
      && r.1.removedClusters == [2]
      && 2 !in r.0.clusterIdToCluster
      && 4 !in r.0.nodeIdToClusterId
      && 3 in r.0.nodeIdToClusterId && r.0.nodeIdToClusterId[3] == 1
  {
    PairsClusteredValid();
    RewiredComponent();
    RewiredDropsFour();
    var e := PairsClustered.(matches := SetMatchesSpec(Pairs, 3, [1]));
    assert EngineValid(e);
    assert FindClustered(e.nodeIdToClusterId, [1, 2, 3]) == 0;
    assert UpdateMatchesSpec(PairsClustered, 3, [1]) == ClusteredSpec(e, 1, [1, 2, 3]);
    MergeInputsOfPairs();
    PairsStranded();
    StrandedReleased(e, 1, [1, 2, 3], 4);
  }

  /** Of the pairs' records, clusters 1 and 2 leave only node 4 outside
      the star. */
  lemma PairsStranded()
    ensures Stranded(PairsClustered.clusterIdToCluster, {2} + {1}, [1, 2, 3]) == {4}
  {
    var recs := PairsClustered.clusterIdToCluster;
    assert 2 in recs && 4 in recs[2] && 4 !in [1, 2, 3];
    forall x | x in Stranded(recs, {2} + {1}, [1, 2, 3]) ensures x == 4 {
      var id :| id in {2} + {1} && id in recs && x in recs[id] && x !in [1, 2, 3];
    }
  }

  /** In the clustered branch, a node without matches that the merge
      strands is left without a cluster, each new node is assigned to the
      survivor, and every donor other than the survivor loses its record. */
  lemma StrandedReleased(e: Engine, clusterId: nat, updated: seq<nat>, x: nat)
    requires EngineValid(e) && Sorted(updated) && clusterId <= e.maxClusterId
    requires x in Stranded(e.clusterIdToCluster,
                           ClusterIdsOf(e.nodeIdToClusterId, Difference(updated, Get(e.clusterIdToCluster, clusterId))) + {clusterId},
                           updated)
    requires x !in e.matches
    ensures var r := ClusteredSpec(e, clusterId, updated);
      && x !in r.0.nodeIdToClusterId
      && (forall y :: y in Difference(updated, Get(e.clusterIdToCluster, clusterId)) ==>
            y in r.0.nodeIdToClusterId && r.0.nodeIdToClusterId[y] == clusterId)
      && (forall d :: d in r.1.removedClusters && d != clusterId ==> d !in r.0.clusterIdToCluster)
  {
    var r := ClusteredSpec(e, clusterId, updated);
    var newNodes := Difference(updated, Get(e.clusterIdToCluster, clusterId));
    assert x !in r.0.nodeIdToClusterId by {
      var e1, pool := ClusteredParts(e, clusterId, updated);
      assert x in pool by {
        assert x in Elems(pool);
      }
      ReclusterKeeps(e1, pool);
      assert x !in updated;
      DifferenceMembers(updated, Get(e.clusterIdToCluster, clusterId));
    }
    assert forall y :: y in newNodes ==> y in r.0.nodeIdToClusterId && r.0.nodeIdToClusterId[y] == clusterId by {
      var e1, pool := ClusteredParts(e, clusterId, updated);
      ClusteredAssignsNewNodes(e, clusterId, updated);
    }
    ClusteredMerge(e, clusterId, updated);
  }
}
