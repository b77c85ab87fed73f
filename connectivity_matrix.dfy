/** The ConnectivityMatrix class (connectivitymatrix.h): a match store plus
    node-to-cluster assignments, cluster records and an id counter, updated
    in place. Every method is proved to leave the state (and return the
    value) its ClusteringSpec function describes. */
module Connectivity {
  import opened SortedSeqs
  import opened Graph
  import opened MatchMatrix
  import opened ClusteringSpec
  import opened ClusteringProperties

  class ConnectivityMatrix {
    const matchMatrix: SymmetricMatchMatrix
    var nodeIdToClusterId: map<nat, nat>
    var clusterIdToCluster: map<nat, seq<nat>>
    var maxClusterId: nat

    /** The whole state, as a value. */
    ghost function State(): Engine
      reads this, matchMatrix
    {
      Engine(matchMatrix.matches, nodeIdToClusterId, clusterIdToCluster, maxClusterId)
    }

    ghost predicate Valid()
      reads this, matchMatrix
    {
      EngineValid(State())
    }

    constructor()
      ensures Valid() && State() == EmptyEngine
      ensures fresh(matchMatrix)
    {
      matchMatrix := new SymmetricMatchMatrix();
      nodeIdToClusterId := map[];
      clusterIdToCluster := map[];
      maxClusterId := 0;
    }

    /** Reset, then record every (id, members) pair of a non-empty list as a
        cluster, seeding its first member's matches with the whole list. */
    method Init(clustersOfClusters: seq<(nat, seq<nat>)>)
      requires ListsSorted(clustersOfClusters)
      modifies this, matchMatrix
      ensures Valid()
      ensures State() == InitSpec(clustersOfClusters)
    {
      Clear();
      for i := 0 to |clustersOfClusters|
        invariant matchMatrix.Valid()
        invariant InitFrom(State(), clustersOfClusters[i..]) == InitSpec(clustersOfClusters)
      {
        var clusterId := clustersOfClusters[i].0;
        var cluster := clustersOfClusters[i].1;
        assert clustersOfClusters[i..][1..] == clustersOfClusters[i + 1..];
        InitCluster(clusterId, cluster);
        maxClusterId := Max(maxClusterId, clusterId);
      }
      InitValid(clustersOfClusters);
    }

    /** Replace probe's matches and report how the clustering changed. */
    method UpdateMatches(probe: nat, updatedMatches: seq<nat>) returns (update: ClusteringUpdate)
      requires Valid() && Sorted(updatedMatches)
      modifies this, matchMatrix
      ensures Valid()
      ensures (State(), update) == UpdateMatchesSpec(old(State()), probe, updatedMatches)
    {
      ghost var e0 := State();
      matchMatrix.SetMatches(probe, updatedMatches);
      var updatedCluster := matchMatrix.GetCluster(probe);
      update := UpdateClustering(probe, updatedCluster);
      UpdateMatchesValid(e0, probe, updatedMatches);
    }

    /** The nodes that have matches, ascending. */
    method GetProbes() returns (probes: seq<nat>)
      ensures Sorted(probes)
      ensures Elems(probes) == matchMatrix.matches.Keys
    {
      probes := matchMatrix.GetProbes();
    }

    /** The ids of the clusters on record, ascending. */
    method GetClusters() returns (clusters: seq<nat>)
      ensures Sorted(clusters)
      ensures Elems(clusters) == clusterIdToCluster.Keys
    {
      clusters := SortedElements(clusterIdToCluster.Keys);
    }

    /** The members on record for a cluster id, or nothing for an unknown id. */
    function GetCluster(cluster: nat): (r: seq<nat>)
      reads this
      ensures cluster !in clusterIdToCluster ==> r == []
      ensures cluster in clusterIdToCluster ==> r == clusterIdToCluster[cluster]
    {
      if cluster in clusterIdToCluster then clusterIdToCluster[cluster] else []
    }

    method Clear()
      modifies this, matchMatrix
      ensures Valid() && State() == EmptyEngine
    {
      nodeIdToClusterId := map[];
      clusterIdToCluster := map[];
      maxClusterId := 0;
      matchMatrix.Clear();
    }

    method InitCluster(clusterId: nat, cluster: seq<nat>)
      requires matchMatrix.Valid() && Sorted(cluster)
      modifies this, matchMatrix
      ensures matchMatrix.Valid()
      ensures State() == InitClusterSpec(old(State()), clusterId, cluster)
    {
      if cluster != [] {
        clusterIdToCluster := clusterIdToCluster[clusterId := cluster];
        SetCluster(cluster, clusterId);
        matchMatrix.SetMatches(cluster[0], cluster);
      }
    }

    method UpdateClustering(probe: nat, updatedCluster: seq<nat>) returns (update: ClusteringUpdate)
      requires Valid() && Sorted(updatedCluster)
      modifies this
      ensures (State(), update) == UpdateClusteringSpec(old(State()), probe, updatedCluster)
    {
      var i := FindClustered(nodeIdToClusterId, updatedCluster);
      if i == |updatedCluster| {
        update := UpdateClusteringForUnclusteredNodes(probe, updatedCluster);
      } else {
        var clusterId := nodeIdToClusterId[updatedCluster[i]];
        update := UpdateClusteringForClusteredNodes(clusterId, updatedCluster);
      }
    }

    method UpdateClusteringForUnclusteredNodes(probe: nat, updatedCluster: seq<nat>)
      returns (update: ClusteringUpdate)
      modifies this
      ensures update == (if updatedCluster == [] then RemovedProbeSpec(old(State()), probe)
                         else NewNodesSpec(old(State()), updatedCluster)).1
      ensures State() == (if updatedCluster == [] then RemovedProbeSpec(old(State()), probe)
                          else NewNodesSpec(old(State()), updatedCluster)).0
    {
      if updatedCluster == [] {
        update := UpdateClusteringForRemovedProbe(probe);
      } else {
        update := UpdateClusteringForNewNodes(updatedCluster);
      }
    }

    /** The tear-down, corrected: every member of the retired cluster is
        released, not only the probe. */
    method UpdateClusteringForRemovedProbe(probe: nat) returns (update: ClusteringUpdate)
      modifies this
      ensures (State(), update) == RemovedProbeSpec(old(State()), probe)
    {
      update := NoUpdate;
      if probe in nodeIdToClusterId {
        var removedClusterId := nodeIdToClusterId[probe];
        var members := Get(clusterIdToCluster, removedClusterId);
        update := ClusteringUpdate(map[], [removedClusterId]);
        clusterIdToCluster := clusterIdToCluster - {removedClusterId};
        var assignments := nodeIdToClusterId;
        for i := 0 to |members|
          invariant assignments == nodeIdToClusterId - Elems(members[..i])
        {
          assert Elems(members[..i + 1]) == Elems(members[..i]) + {members[i]} by {
            assert members[..i + 1] == members[..i] + [members[i]];
          }
          assignments := assignments - {members[i]};
        }
        assert members[..|members|] == members;
        nodeIdToClusterId := assignments - {probe};
      }
    }

    method UpdateClusteringForNewNodes(updatedCluster: seq<nat>) returns (update: ClusteringUpdate)
      modifies this
      ensures (State(), update) == NewNodesSpec(old(State()), updatedCluster)
    {
      var newClusterId := CreateCluster(updatedCluster);
      update := ClusteringUpdate(map[newClusterId := ClusterUpdate(updatedCluster, [])], []);
    }

    /** Merge and split, corrected: the new nodes are assigned to clusterId
        before being handed to the report. */
    method UpdateClusteringForClusteredNodes(clusterId: nat, updatedCluster: seq<nat>)
      returns (update: ClusteringUpdate)
      requires Valid() && Sorted(updatedCluster)
      modifies this
      ensures (State(), update) == ClusteredSpec(old(State()), clusterId, updatedCluster)
    {
      ghost var e0 := State();
      var outdatedCluster := Get(clusterIdToCluster, clusterId);
      var newNodes := Difference(updatedCluster, outdatedCluster);
      var removedNodes := Difference(outdatedCluster, updatedCluster);
      var removedClusters := GetUniqueClusters(newNodes);
      var strandedNodes := StrandedNodes(removedClusters, clusterId, updatedCluster);
      assert strandedNodes == ReclusterPool(e0, clusterId, updatedCluster);
      EraseClusters(removedClusters);
      ghost var e1 := State();
      assert e1 == e0.(clusterIdToCluster := e0.clusterIdToCluster - Elems(removedClusters));
      ReclusterValid(e1, strandedNodes);
      var newClusterIds := ReclusterNodes(strandedNodes);
      ghost var e2 := State();
      var clusterUpdates := ReportNewClusters(newClusterIds);
      clusterUpdates := clusterUpdates[clusterId := ClusterUpdate(newNodes, removedNodes)];
      SetCluster(newNodes, clusterId);
      clusterIdToCluster := clusterIdToCluster[clusterId := updatedCluster];
      update := ClusteringUpdate(clusterUpdates, removedClusters);
      assert State() == e2.(nodeIdToClusterId := Assign(e2.nodeIdToClusterId, newNodes, clusterId),
                            clusterIdToCluster := e2.clusterIdToCluster[clusterId := updatedCluster]);
    }

    /** What clusterId and the listed clusters hold outside the updated
        component, ascending: the survivor's dropped nodes, then each
        merged record's difference with the component, sorted and made
        unique. */
    method StrandedNodes(clusters: seq<nat>, clusterId: nat, updatedCluster: seq<nat>)
      returns (nodes: seq<nat>)
      requires Valid() && Sorted(updatedCluster)
      ensures Sorted(nodes)
      ensures nodes == SortedSeqOf(Stranded(clusterIdToCluster, Elems(clusters) + {clusterId}, updatedCluster))
    {
      var leftovers := Difference(Get(clusterIdToCluster, clusterId), updatedCluster);
      StrandedAdd(clusterIdToCluster, {}, clusterId, updatedCluster);
      assert Stranded(clusterIdToCluster, {}, updatedCluster) == {};
      assert Elems(clusters[..0]) + {clusterId} == {} + {clusterId};
      for j := 0 to |clusters|
        invariant Elems(leftovers) == Stranded(clusterIdToCluster, Elems(clusters[..j]) + {clusterId}, updatedCluster)
      {
        var dropped := Difference(Get(clusterIdToCluster, clusters[j]), updatedCluster);
        StrandedAdd(clusterIdToCluster, Elems(clusters[..j]) + {clusterId}, clusters[j], updatedCluster);
        assert Elems(clusters[..j + 1]) + {clusterId} == Elems(clusters[..j]) + {clusterId} + {clusters[j]} by {
          assert clusters[..j + 1] == clusters[..j] + [clusters[j]];
        }
        assert Elems(leftovers + dropped) == Elems(leftovers) + Elems(dropped);
        leftovers := leftovers + dropped;
      }
      assert clusters[..|clusters|] == clusters;
      nodes := SortUnique(leftovers);
      SortedUnique(nodes, SortedSeqOf(Stranded(clusterIdToCluster, Elems(clusters) + {clusterId}, updatedCluster)));
    }

    /** Each re-clustered id, reported with its members as new matches. */
    method ReportNewClusters(newClusterIds: seq<nat>) returns (clusterUpdates: map<nat, ClusterUpdate>)
      ensures clusterUpdates == ReportNew(clusterIdToCluster, newClusterIds)
    {
      clusterUpdates := map[];
      for j := 0 to |newClusterIds|
        invariant clusterUpdates == ReportNew(clusterIdToCluster, newClusterIds[..j])
      {
        assert Elems(newClusterIds[..j + 1]) == Elems(newClusterIds[..j]) + {newClusterIds[j]} by {
          assert newClusterIds[..j + 1] == newClusterIds[..j] + [newClusterIds[j]];
        }
        clusterUpdates := clusterUpdates[newClusterIds[j] :=
          ClusterUpdate(Get(clusterIdToCluster, newClusterIds[j]), [])];
      }
      assert newClusterIds[..|newClusterIds|] == newClusterIds;
    }

    /** The distinct cluster ids of the listed nodes that have one, ascending. */
    method GetUniqueClusters(nodes: seq<nat>) returns (clusters: seq<nat>)
      ensures Sorted(clusters)
      ensures Elems(clusters) == ClusterIdsOf(nodeIdToClusterId, nodes)
      ensures clusters == SortedSeqOf(ClusterIdsOf(nodeIdToClusterId, nodes))
    {
      var found: seq<nat> := [];
      for i := 0 to |nodes|
        invariant Elems(found) == ClusterIdsOf(nodeIdToClusterId, nodes[..i])
      {
        ClusterIdsStep(nodeIdToClusterId, nodes[..i], nodes[i]);
        assert nodes[..i + 1] == nodes[..i] + [nodes[i]];
        if nodes[i] in nodeIdToClusterId {
          found := found + [nodeIdToClusterId[nodes[i]]];
        }
      }
      assert nodes[..|nodes|] == nodes;
      clusters := SortUnique(found);
      SortedUnique(clusters, SortedSeqOf(ClusterIdsOf(nodeIdToClusterId, nodes)));
    }

    method EraseClusters(clusters: seq<nat>)
      modifies this
      ensures clusterIdToCluster == old(clusterIdToCluster) - Elems(clusters)
      ensures nodeIdToClusterId == old(nodeIdToClusterId) && maxClusterId == old(maxClusterId)
    {
      for i := 0 to |clusters|
        invariant clusterIdToCluster == old(clusterIdToCluster) - Elems(clusters[..i])
        invariant nodeIdToClusterId == old(nodeIdToClusterId) && maxClusterId == old(maxClusterId)
      {
        assert Elems(clusters[..i + 1]) == Elems(clusters[..i]) + {clusters[i]} by {
          assert clusters[..i + 1] == clusters[..i] + [clusters[i]];
        }
        clusterIdToCluster := clusterIdToCluster - {clusters[i]};
      }
      assert clusters[..|clusters|] == clusters;
    }

    method SetCluster(nodes: seq<nat>, clusterId: nat)
      modifies this
      ensures nodeIdToClusterId == Assign(old(nodeIdToClusterId), nodes, clusterId)
      ensures clusterIdToCluster == old(clusterIdToCluster) && maxClusterId == old(maxClusterId)
    {
      for i := 0 to |nodes|
        invariant nodeIdToClusterId == Assign(old(nodeIdToClusterId), nodes[..i], clusterId)
        invariant clusterIdToCluster == old(clusterIdToCluster) && maxClusterId == old(maxClusterId)
      {
        AssignStep(old(nodeIdToClusterId), nodes[..i], nodes[i], clusterId);
        assert nodes[..i + 1] == nodes[..i] + [nodes[i]];
        nodeIdToClusterId := nodeIdToClusterId[nodes[i] := clusterId];
      }
      assert nodes[..|nodes|] == nodes;
    }

    method ReclusterNodes(nodes0: seq<nat>) returns (newClusterIds: seq<nat>)
      requires matchMatrix.Valid() && Sorted(nodes0)
      modifies this
      ensures (State(), newClusterIds) == ReclusterSpec(old(State()), nodes0)
    {
      ghost var e0 := State();
      ghost var split := SplitOff(matchMatrix.matches, nodeIdToClusterId, nodes0);
      var nodes := nodes0;
      var newClusters: seq<seq<nat>> := [];
      while nodes != []
        invariant Sorted(nodes)
        invariant clusterIdToCluster == e0.clusterIdToCluster && maxClusterId == e0.maxClusterId
        invariant split.0 == SplitOff(matchMatrix.matches, nodeIdToClusterId, nodes).0
        invariant split.1 == newClusters + SplitOff(matchMatrix.matches, nodeIdToClusterId, nodes).1
        decreases |nodes|
      {
        SplitOffTurn(matchMatrix.matches, nodeIdToClusterId, nodes);
        var back := nodes[|nodes| - 1];
        var cluster := matchMatrix.GetCluster(back);
        if cluster == [] {
          nodeIdToClusterId := nodeIdToClusterId - {back};
          nodes := nodes[..|nodes| - 1];
        } else {
          AppendCluster(newClusters, cluster,
                        SplitOff(matchMatrix.matches, nodeIdToClusterId, Difference(nodes, cluster)).1);
          nodes := Difference(nodes, cluster);
          newClusters := newClusters + [cluster];
        }
      }
      assert newClusters + [] == newClusters;
      newClusterIds := CreateNewClusters(newClusters);
    }

    /** The second loop of reclusterNodes: createCluster for each collected
        component, in order, gathering the new ids. */
    method CreateNewClusters(newClusters: seq<seq<nat>>) returns (newClusterIds: seq<nat>)
      modifies this
      ensures (State(), newClusterIds) == CreateClusters(old(State()), newClusters)
    {
      ghost var goal := CreateClusters(State(), newClusters);
      newClusterIds := [];
      assert newClusters[0..] == newClusters;
      for i := 0 to |newClusters|
        invariant goal.0 == CreateClusters(State(), newClusters[i..]).0
        invariant goal.1 == newClusterIds + CreateClusters(State(), newClusters[i..]).1
      {
        CreateClustersCons(State(), newClusters[i..]);
        assert newClusters[i..][0] == newClusters[i];
        assert newClusters[i..][1..] == newClusters[i + 1..];
        var id := CreateCluster(newClusters[i]);
        newClusterIds := newClusterIds + [id];
      }
      assert newClusters[|newClusters|..] == [];
      assert newClusterIds + [] == newClusterIds;
    }

    method CreateCluster(cluster: seq<nat>) returns (newClusterId: nat)
      modifies this
      ensures (State(), newClusterId) == CreateClusterSpec(old(State()), cluster)
    {
      newClusterId := CreateClusterId();
      SetCluster(cluster, newClusterId);
      clusterIdToCluster := clusterIdToCluster[newClusterId := cluster];
    }

    method CreateClusterId() returns (id: nat)
      modifies this
      ensures id == old(maxClusterId) + 1 == maxClusterId
      ensures nodeIdToClusterId == old(nodeIdToClusterId)
      ensures clusterIdToCluster == old(clusterIdToCluster)
    {
      maxClusterId := maxClusterId + 1;
      id := maxClusterId;
    }
  }
}
