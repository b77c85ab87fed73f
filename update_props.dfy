/** What one updateMatches call does to the clustering, branch by branch
    (connectivitymatrix.h:42-172), and what init sets up (86-92). */
module UpdateProperties {
  import opened SortedSeqs
  import opened Graph
  import opened MatchMatrix
  import opened ClusteringSpec
  import opened ClusteringProperties

  /** The branch is chosen by the lowest node of the (ascending) component
      that already has a cluster; there is none exactly when no node of it
      has one. */
  lemma FindClusteredLowest(a: map<nat, nat>, s: seq<nat>)
    requires Sorted(s)
    ensures FindClustered(a, s) == |s| <==> forall x :: x in s ==> x !in a
    ensures FindClustered(a, s) < |s| ==>
              forall x :: x in s && x in a ==> s[FindClustered(a, s)] <= x
  {
    var i := FindClustered(a, s);
    if i < |s| {
      forall x | x in s && x in a ensures s[i] <= x {
        var k :| 0 <= k < |s| && s[k] == x;
        assert !(k < i);
      }
    }
  }

  /** Emptying a probe's list leaves it no entry, hence an empty component,
      hence the tear-down branch: if the probe had a cluster, that record
      is erased, its members and the probe lose their assignments and the
      id is the one reported removed; otherwise the clustering is untouched and the
      report is empty. */
  lemma EmptyListTearsDown(e: Engine, probe: nat)
    requires EngineValid(e)
    ensures var m := SetMatchesSpec(e.matches, probe, []);
      var r := UpdateMatchesSpec(e, probe, []);
      && probe !in m
      && r.0.matches == m
      && r.0.maxClusterId == e.maxClusterId
      && (probe in e.nodeIdToClusterId ==>
            var id := e.nodeIdToClusterId[probe];
            && r.1 == ClusteringUpdate(map[], [id])
            && r.0.clusterIdToCluster == e.clusterIdToCluster - {id}
            && r.0.nodeIdToClusterId ==
                 e.nodeIdToClusterId - Elems(Get(e.clusterIdToCluster, id)) - {probe})
      && (probe !in e.nodeIdToClusterId ==>
            r.1 == NoUpdate && r.0 == e.(matches := m))
  {
    var m := SetMatchesSpec(e.matches, probe, []);
    SetMatchesEntry(e.matches, probe, [], probe);
    SetMatchesWellFormed(e.matches, probe, []);
    ComponentOfKey(m, probe);
  }

  /** A component none of whose nodes has a cluster becomes the cluster
      numbered one above the counter: its record is the component, every
      member maps to it, every other assignment and record stays, and it is
      reported with the whole component as new matches and nothing
      removed. */
  lemma NewClusterFacts(e: Engine, probe: nat, cluster: seq<nat>)
    requires EngineValid(e) && Sorted(cluster) && cluster != []
    requires forall x :: x in cluster ==> x !in e.nodeIdToClusterId
    ensures var r := UpdateClusteringSpec(e, probe, cluster);
      var id := e.maxClusterId + 1;
      && id !in e.clusterIdToCluster
      && r.0.maxClusterId == id
      && r.0.clusterIdToCluster == e.clusterIdToCluster[id := cluster]
      && (forall x :: x in cluster ==> x in r.0.nodeIdToClusterId && r.0.nodeIdToClusterId[x] == id)
      && (forall x :: x in e.nodeIdToClusterId ==> r.0.nodeIdToClusterId[x] == e.nodeIdToClusterId[x])
      && r.0.nodeIdToClusterId.Keys == e.nodeIdToClusterId.Keys + Elems(cluster)
      && r.1 == ClusteringUpdate(map[id := ClusterUpdate(cluster, [])], [])
  {
    FindClusteredLowest(e.nodeIdToClusterId, cluster);
  }

  /** The clustered branch, its own report and record: the entry reported
      for clusterId is (updated minus outdated, outdated minus updated) as
      ascending sets, and its record becomes the updated component. */
  lemma ClusteredReport(e: Engine, clusterId: nat, updated: seq<nat>)
    requires EngineValid(e) && Sorted(updated) && clusterId <= e.maxClusterId
    ensures var outdated := Get(e.clusterIdToCluster, clusterId);
      var r := ClusteredSpec(e, clusterId, updated);
      var report := r.1.clusterUpdates[clusterId];
      && clusterId in r.1.clusterUpdates
      && Sorted(report.newMatches) && Elems(report.newMatches) == Elems(updated) - Elems(outdated)
      && Sorted(report.removedMatches) && Elems(report.removedMatches) == Elems(outdated) - Elems(updated)
      && clusterId in r.0.clusterIdToCluster && r.0.clusterIdToCluster[clusterId] == updated
  {
    var e1, pool := ClusteredParts(e, clusterId, updated);
  }

  /** The clustered branch, the merge: the removed clusters are the distinct
      clusters of the new nodes, ascending; each of them other than
      clusterId loses its record; every other record on file stays. */
  lemma ClusteredMerge(e: Engine, clusterId: nat, updated: seq<nat>)
    requires EngineValid(e) && Sorted(updated) && clusterId <= e.maxClusterId
    ensures var outdated := Get(e.clusterIdToCluster, clusterId);
      var r := ClusteredSpec(e, clusterId, updated);
      && Sorted(r.1.removedClusters)
      && Elems(r.1.removedClusters) == ClusterIdsOf(e.nodeIdToClusterId, Difference(updated, outdated))
      && (forall d :: d in r.1.removedClusters && d != clusterId ==> d !in r.0.clusterIdToCluster)
      && (forall id :: id in e.clusterIdToCluster && id !in r.1.removedClusters && id != clusterId ==>
            id in r.0.clusterIdToCluster && r.0.clusterIdToCluster[id] == e.clusterIdToCluster[id])
  {
    var e1, pool := ClusteredParts(e, clusterId, updated);
    ReclusterRecords(e1, pool);
  }

  /** The clustered branch when the survivor's record already is the
      component: no new nodes, no dropped nodes, no donors and nothing to
      re-cluster, so the state is unchanged and the report holds one empty
      entry for the survivor. */
  lemma ClusteredUnchanged(e: Engine, clusterId: nat, updated: seq<nat>)
    requires EngineValid(e) && Sorted(updated)
    requires clusterId in e.clusterIdToCluster && e.clusterIdToCluster[clusterId] == updated
    ensures ClusteredSpec(e, clusterId, updated).0 == e
    ensures ClusteredSpec(e, clusterId, updated).1 ==
              ClusteringUpdate(map[clusterId := ClusterUpdate([], [])], [])
  {
    var e1, pool := ClusteredParts(e, clusterId, updated);
    ClusteredValid(e, clusterId, updated);
    DifferenceSelf(updated);
    assert ClusterIdsOf(e.nodeIdToClusterId, []) == {};
    assert SortedSeqOf({}) == [];
    assert e1 == e;
    assert Stranded(e.clusterIdToCluster, {clusterId}, updated) == {};
    assert pool == [];
    var rc := ReclusterSpec(e1, pool);
    assert rc == (e, []);
    var r := ClusteredSpec(e, clusterId, updated);
    assert r.0.nodeIdToClusterId == e.nodeIdToClusterId;
    assert r.0.clusterIdToCluster == e.clusterIdToCluster;
    assert r.1.clusterUpdates == map[clusterId := ClusterUpdate([], [])];
  }

  /** The ids reclusterNodes reports are consecutive above the counter,
      which ends at the last of them, and each is on record. */
  lemma ReclusterIds(e: Engine, pool: seq<nat>)
    requires EngineValid(e) && Sorted(pool)
    ensures var r := ReclusterSpec(e, pool);
      && (forall j :: 0 <= j < |r.1| ==> r.1[j] == e.maxClusterId + 1 + j)
      && r.0.maxClusterId == e.maxClusterId + |r.1|
      && (forall id :: e.maxClusterId < id <= r.0.maxClusterId ==> id in r.0.clusterIdToCluster)
  {
    ReclusterRecords(e, pool);
  }

  /** The ids reclusterNodes reports are exactly the fresh ones above the
      counter. */
  lemma ReportedIds(e: Engine, pool: seq<nat>)
    requires EngineValid(e) && Sorted(pool)
    ensures var r := ReclusterSpec(e, pool);
      forall id :: id in r.1 <==> e.maxClusterId < id <= r.0.maxClusterId
  {
    ReclusterRecords(e, pool);
    var r := ReclusterSpec(e, pool);
    forall id | e.maxClusterId < id <= r.0.maxClusterId ensures id in r.1 {
      assert r.1[id - e.maxClusterId - 1] == id;
    }
  }

  /** The clustered branch in terms of reclusterNodes: the records and the
      assignments are those reclusterNodes leaves, with the component on
      record under clusterId and its new nodes assigned to it. */
  lemma ClusteredParts(e: Engine, clusterId: nat, updated: seq<nat>) returns (e1: Engine, pool: seq<nat>)
    requires EngineValid(e) && Sorted(updated) && clusterId <= e.maxClusterId
    ensures EngineValid(e1) && Sorted(pool)
    ensures e1.maxClusterId == e.maxClusterId && e1.matches == e.matches
    ensures e1.nodeIdToClusterId == e.nodeIdToClusterId
    ensures pool == ReclusterPool(e, clusterId, updated)
    ensures var rc := ReclusterSpec(e1, pool);
      var r := ClusteredSpec(e, clusterId, updated);
      && r.0.clusterIdToCluster == rc.0.clusterIdToCluster[clusterId := updated]
      && r.0.maxClusterId == rc.0.maxClusterId
      && r.0.nodeIdToClusterId ==
           Assign(rc.0.nodeIdToClusterId, Difference(updated, Get(e.clusterIdToCluster, clusterId)), clusterId)
      && r.1.clusterUpdates.Keys == Elems(rc.1) + {clusterId}
      && r.1.clusterUpdates[clusterId] ==
           ClusterUpdate(Difference(updated, Get(e.clusterIdToCluster, clusterId)),
                         Difference(Get(e.clusterIdToCluster, clusterId), updated))
      && r.1.removedClusters == SortedSeqOf(ClusterIdsOf(e.nodeIdToClusterId, Difference(updated, Get(e.clusterIdToCluster, clusterId))))
      && e1.clusterIdToCluster == e.clusterIdToCluster - Elems(r.1.removedClusters)
      && (forall id :: id in rc.1 ==> r.1.clusterUpdates[id] == ClusterUpdate(Get(rc.0.clusterIdToCluster, id), []))
  {
    var outdated := Get(e.clusterIdToCluster, clusterId);
    var newNodes := Difference(updated, outdated);
    pool := ReclusterPool(e, clusterId, updated);
    var removedClusters := SortedSeqOf(ClusterIdsOf(e.nodeIdToClusterId, newNodes));
    e1 := e.(clusterIdToCluster := e.clusterIdToCluster - Elems(removedClusters));
    assert EngineValid(e1);
    ReclusterRecords(e1, pool);
    var rc := ReclusterSpec(e1, pool);
  }

  /** c is the non-empty component of a pool node that has matches. */
  ghost predicate ComponentFrom(m: Adjacency, pool: seq<nat>, c: seq<nat>) {
    c != [] && exists x :: x in pool && x in m && c == Component(m, x)
  }

  /** Components collected from a pool and stored under consecutive ids
      above base, read back by id. */
  lemma ComponentsById(m: Adjacency, pool: seq<nat>, base: nat, ids: seq<nat>, recs: map<nat, seq<nat>>)
    requires forall j :: 0 <= j < |ids| ==> ids[j] == base + 1 + j
    requires forall id :: base < id <= base + |ids| ==> id in recs
    requires ComponentsOfPool(m, pool, RecordsOf(recs, ids))
    ensures forall id :: base < id <= base + |ids| ==> ComponentFrom(m, pool, Get(recs, id))
  {
    var cs := RecordsOf(recs, ids);
    forall id | base < id <= base + |ids| ensures ComponentFrom(m, pool, Get(recs, id)) {
      var j := id - base - 1;
      assert cs[j] == Get(recs, id);
      var y := SeedOf(m, pool, cs, j);
    }
  }

  /** reclusterNodes read by id: each fresh id is on record with the
      non-empty component of a pool node that has matches. */
  lemma ReclusterComponentsById(e: Engine, pool: seq<nat>)
    requires EngineValid(e) && Sorted(pool)
    ensures var rc := ReclusterSpec(e, pool);
      forall id :: e.maxClusterId < id <= rc.0.maxClusterId ==>
        id in rc.0.clusterIdToCluster && ComponentFrom(e.matches, pool, Get(rc.0.clusterIdToCluster, id))
  {
    var rc := ReclusterSpec(e, pool);
    var ids, recs := rc.1, rc.0.clusterIdToCluster;
    assert rc.0.maxClusterId == e.maxClusterId + |ids| &&
           (forall j :: 0 <= j < |ids| ==> ids[j] == e.maxClusterId + 1 + j) &&
           (forall id :: e.maxClusterId < id <= e.maxClusterId + |ids| ==> id in recs) by {
      ReclusterIds(e, pool);
    }
    assert ComponentsOfPool(e.matches, pool, RecordsOf(recs, ids)) by {
      ReclusterClusters(e, pool);
    }
    ComponentsById(e.matches, pool, e.maxClusterId, ids, recs);
  }

  /** Disjointness, cover and assignments of clusters stored under
      consecutive ids above base, read by id. */
  lemma SplitClustersById(m: Adjacency, pool: seq<nat>, base: nat, ids: seq<nat>,
                          recs: map<nat, seq<nat>>, nodes: map<nat, nat>)
    requires forall j :: 0 <= j < |ids| ==> ids[j] == base + 1 + j
    requires forall id :: base < id <= base + |ids| ==> id in recs
    requires PairwiseDisjoint(RecordsOf(recs, ids)) && CoversPool(m, pool, RecordsOf(recs, ids))
    requires forall j, x :: 0 <= j < |ids| && x in RecordsOf(recs, ids)[j] ==> x in nodes && nodes[x] == ids[j]
    ensures forall x :: x in pool && x in m ==> exists id :: base < id <= base + |ids| && x in Get(recs, id)
    ensures forall id1, id2 :: base < id1 < id2 <= base + |ids| ==> Elems(Get(recs, id1)) !! Elems(Get(recs, id2))
    ensures forall id, x :: base < id <= base + |ids| && x in Get(recs, id) ==> x in nodes && nodes[x] == id
  {
    var cs := RecordsOf(recs, ids);
    forall x | x in pool && x in m ensures exists id :: base < id <= base + |ids| && x in Get(recs, id) {
      var j :| 0 <= j < |cs| && x in cs[j];
      assert Get(recs, base + 1 + j) == cs[j];
    }
    forall id1, id2 | base < id1 < id2 <= base + |ids|
      ensures Elems(Get(recs, id1)) !! Elems(Get(recs, id2))
    {
      assert cs[id1 - base - 1] == Get(recs, id1);
      assert cs[id2 - base - 1] == Get(recs, id2);
    }
    forall id, x | base < id <= base + |ids| && x in Get(recs, id) ensures x in nodes && nodes[x] == id {
      assert cs[id - base - 1] == Get(recs, id);
    }
  }

  /** reclusterNodes read by id: the clusters under the fresh ids cover the
      pool's nodes that have matches, are pairwise disjoint, and their
      members are assigned their ids. */
  lemma ReclusterById(e: Engine, pool: seq<nat>)
    requires EngineValid(e) && Sorted(pool)
    ensures var rc := ReclusterSpec(e, pool);
      && (forall x :: x in pool && x in e.matches ==>
            exists id :: e.maxClusterId < id <= rc.0.maxClusterId && x in Get(rc.0.clusterIdToCluster, id))
      && (forall id1, id2 :: e.maxClusterId < id1 < id2 <= rc.0.maxClusterId ==>
            Elems(Get(rc.0.clusterIdToCluster, id1)) !! Elems(Get(rc.0.clusterIdToCluster, id2)))
      && (forall id, x :: e.maxClusterId < id <= rc.0.maxClusterId && x in Get(rc.0.clusterIdToCluster, id) ==>
            x in rc.0.nodeIdToClusterId && rc.0.nodeIdToClusterId[x] == id)
  {
    var rc := ReclusterSpec(e, pool);
    var ids, recs, nodes := rc.1, rc.0.clusterIdToCluster, rc.0.nodeIdToClusterId;
    assert rc.0.maxClusterId == e.maxClusterId + |ids| &&
           (forall j :: 0 <= j < |ids| ==> ids[j] == e.maxClusterId + 1 + j) &&
           (forall id :: e.maxClusterId < id <= e.maxClusterId + |ids| ==> id in recs) by {
      ReclusterIds(e, pool);
    }
    assert PairwiseDisjoint(RecordsOf(recs, ids)) && CoversPool(e.matches, pool, RecordsOf(recs, ids)) by {
      ReclusterClusters(e, pool);
    }
    assert forall j, x :: 0 <= j < |ids| && x in RecordsOf(recs, ids)[j] ==> x in nodes && nodes[x] == ids[j] by {
      ReclusterAssigns(e, pool);
    }
    SplitClustersById(e.matches, pool, e.maxClusterId, ids, recs, nodes);
  }

  /** The clustered branch, the split, as reported: besides clusterId the
      report holds exactly the fresh ids above the old counter, each on
      record and reported with its whole record as new matches. */
  lemma ClusteredSplitReport(e: Engine, clusterId: nat, updated: seq<nat>)
    requires EngineValid(e) && Sorted(updated) && clusterId <= e.maxClusterId
    ensures var r := ClusteredSpec(e, clusterId, updated);
      && (forall id :: id in r.1.clusterUpdates <==> id == clusterId || e.maxClusterId < id <= r.0.maxClusterId)
      && (forall id :: e.maxClusterId < id <= r.0.maxClusterId ==>
            id in r.0.clusterIdToCluster && r.1.clusterUpdates[id] == ClusterUpdate(r.0.clusterIdToCluster[id], []))
  {
    var e1, pool := ClusteredParts(e, clusterId, updated);
    ReclusterRecords(e1, pool);
    ReportedIds(e1, pool);
    var rc := ReclusterSpec(e1, pool);
    var r := ClusteredSpec(e, clusterId, updated);
    var updates := r.1.clusterUpdates;
    KeysById(updates.Keys, rc.1, e.maxClusterId, r.0.maxClusterId, clusterId);
    forall id | e.maxClusterId < id <= r.0.maxClusterId
      ensures id in r.0.clusterIdToCluster && updates[id] == ClusterUpdate(r.0.clusterIdToCluster[id], [])
    {
      assert id in rc.1;
      assert r.0.clusterIdToCluster[id] == Get(rc.0.clusterIdToCluster, id);
    }
  }

  /** The clustered branch, the split, as recorded: each new cluster is the
      non-empty component of a re-clustered node that still has matches. */
  lemma ClusteredSplitComponents(e: Engine, clusterId: nat, updated: seq<nat>)
    requires EngineValid(e) && Sorted(updated) && clusterId <= e.maxClusterId
    ensures var pool := ReclusterPool(e, clusterId, updated);
      var r := ClusteredSpec(e, clusterId, updated);
      forall id :: e.maxClusterId < id <= r.0.maxClusterId ==>
        id in r.0.clusterIdToCluster && ComponentFrom(e.matches, pool, Get(r.0.clusterIdToCluster, id))
  {
    var e1, pool := ClusteredParts(e, clusterId, updated);
    ReclusterComponentsById(e1, pool);
    var rc := ReclusterSpec(e1, pool);
    var r := ClusteredSpec(e, clusterId, updated);
    AboveUnchanged(rc.0.clusterIdToCluster, r.0.clusterIdToCluster, clusterId, updated, e.maxClusterId);
  }

  /** The key set of a report: one id at most base and the ids of a range
      above it. */
  lemma KeysById(keys: set<nat>, ids: seq<nat>, base: nat, top: nat, clusterId: nat)
    requires keys == Elems(ids) + {clusterId}
    requires forall id :: id in ids <==> base < id <= top
    ensures forall id :: id in keys <==> id == clusterId || base < id <= top
  {
  }

  /** The clustered branch, the split, as clustered: the new clusters are
      pairwise disjoint, and together they hold every re-clustered node
      that still has matches. */
  lemma ClusteredSplitClusters(e: Engine, clusterId: nat, updated: seq<nat>)
    requires EngineValid(e) && Sorted(updated) && clusterId <= e.maxClusterId
    ensures var pool := ReclusterPool(e, clusterId, updated);
      var r := ClusteredSpec(e, clusterId, updated);
      && (forall x :: x in pool && x in e.matches ==>
            exists id :: e.maxClusterId < id <= r.0.maxClusterId && x in Get(r.0.clusterIdToCluster, id))
      && (forall id1, id2 :: e.maxClusterId < id1 < id2 <= r.0.maxClusterId ==>
            Elems(Get(r.0.clusterIdToCluster, id1)) !! Elems(Get(r.0.clusterIdToCluster, id2)))
  {
    var e1, pool := ClusteredParts(e, clusterId, updated);
    ReclusterById(e1, pool);
    var rc := ReclusterSpec(e1, pool);
    var r := ClusteredSpec(e, clusterId, updated);
    AboveUnchanged(rc.0.clusterIdToCluster, r.0.clusterIdToCluster, clusterId, updated, e.maxClusterId);
  }

  /** The clustered branch, the split, as assigned: each member of a new
      cluster that is not in the updated list is assigned the new id. */
  lemma ClusteredSplitAssigns(e: Engine, clusterId: nat, updated: seq<nat>)
    requires EngineValid(e) && Sorted(updated) && clusterId <= e.maxClusterId
    ensures var r := ClusteredSpec(e, clusterId, updated);
      forall id, x :: e.maxClusterId < id <= r.0.maxClusterId && x in Get(r.0.clusterIdToCluster, id) &&
                      x !in updated ==>
        x in r.0.nodeIdToClusterId && r.0.nodeIdToClusterId[x] == id
  {
    var e1, pool := ClusteredParts(e, clusterId, updated);
    ReclusterById(e1, pool);
    var rc := ReclusterSpec(e1, pool);
    var r := ClusteredSpec(e, clusterId, updated);
    AboveUnchanged(rc.0.clusterIdToCluster, r.0.clusterIdToCluster, clusterId, updated, e.maxClusterId);
    DifferenceMembers(updated, Get(e.clusterIdToCluster, clusterId));
  }

  /** Overwriting one id at most base leaves every record above base as it
      was. */
  lemma AboveUnchanged(recs: map<nat, seq<nat>>, final: map<nat, seq<nat>>, clusterId: nat,
                       updated: seq<nat>, base: nat)
    requires final == recs[clusterId := updated] && clusterId <= base
    ensures forall id :: base < id ==> Get(final, id) == Get(recs, id)
  {
  }

  /** The clustered branch assigns each node reported as joining clusterId
      to clusterId. */
  lemma ClusteredAssignsNewNodes(e: Engine, clusterId: nat, updated: seq<nat>)
    requires EngineValid(e) && Sorted(updated) && clusterId <= e.maxClusterId
    ensures var r := ClusteredSpec(e, clusterId, updated);
      && clusterId in r.1.clusterUpdates
      && forall x :: x in r.1.clusterUpdates[clusterId].newMatches ==>
           x in r.0.nodeIdToClusterId && r.0.nodeIdToClusterId[x] == clusterId
  {
    var e1, pool := ClusteredParts(e, clusterId, updated);
  }

  /** When the updated list is a component, the new clusters split off from
      it share no node with it, so all their members get their new ids. */
  lemma ClusteredSplitApart(e: Engine, clusterId: nat, p: nat)
    requires EngineValid(e) && clusterId <= e.maxClusterId
    ensures var cluster := Component(e.matches, p);
      var r := ClusteredSpec(e, clusterId, cluster);
      forall id :: e.maxClusterId < id <= r.0.maxClusterId ==>
        Elems(Get(r.0.clusterIdToCluster, id)) !! Elems(cluster)
  {
    var cluster := Component(e.matches, p);
    var pool := ReclusterPool(e, clusterId, cluster);
    ClusteredSplitComponents(e, clusterId, cluster);
    var r := ClusteredSpec(e, clusterId, cluster);
    ApartById(e.matches, p, pool, e.maxClusterId, r.0.maxClusterId, r.0.clusterIdToCluster);
  }

  /** Components of nodes outside p's component, stored by id, are apart
      from p's component. */
  lemma ApartById(m: Adjacency, p: nat, pool: seq<nat>, base: nat, top: nat, recs: map<nat, seq<nat>>)
    requires Symmetric(m)
    requires forall x :: x in pool ==> x !in Component(m, p)
    requires forall id :: base < id <= top ==> ComponentFrom(m, pool, Get(recs, id))
    ensures forall id :: base < id <= top ==> Elems(Get(recs, id)) !! Elems(Component(m, p))
  {
    forall id | base < id <= top ensures Elems(Get(recs, id)) !! Elems(Component(m, p)) {
      assert ComponentFrom(m, pool, Get(recs, id));
      var x :| x in pool && x in m && Get(recs, id) == Component(m, x);
      ComponentsApart(m, p, x);
    }
  }

  /** Whatever the branch, once the probe has matches its component is on
      record under some id, and that id is in the report. */
  lemma ComponentRecorded(e: Engine, probe: nat, updated: seq<nat>)
    requires EngineValid(e) && Sorted(updated) && updated != []
    ensures var m := SetMatchesSpec(e.matches, probe, updated);
      var r := UpdateMatchesSpec(e, probe, updated);
      exists id :: id in r.0.clusterIdToCluster && id in r.1.clusterUpdates &&
                   r.0.clusterIdToCluster[id] == Component(m, probe) &&
                   probe in r.0.clusterIdToCluster[id]
  {
    var m := SetMatchesSpec(e.matches, probe, updated);
    SetMatchesEntry(e.matches, probe, updated, probe);
    SetMatchesWellFormed(e.matches, probe, updated);
    ComponentOfKey(m, probe);
    var cluster := Component(m, probe);
    assert probe in Elems(cluster);
    var e1 := e.(matches := m);
    assert UpdateMatchesSpec(e, probe, updated) == UpdateClusteringSpec(e1, probe, cluster);
    var id := ClusterRecorded(e1, probe, cluster);
  }

  /** updateClustering on a list holding the probe records that list under
      an id it reports, whichever branch it takes. */
  lemma ClusterRecorded(e: Engine, probe: nat, cluster: seq<nat>) returns (id: nat)
    requires EngineValid(e) && Sorted(cluster) && probe in cluster
    ensures var r := UpdateClusteringSpec(e, probe, cluster);
      id in r.0.clusterIdToCluster && id in r.1.clusterUpdates && r.0.clusterIdToCluster[id] == cluster
  {
    var i := FindClustered(e.nodeIdToClusterId, cluster);
    if i < |cluster| {
      id := e.nodeIdToClusterId[cluster[i]];
      ClusteredReport(e, id, cluster);
    } else {
      id := e.maxClusterId + 1;
    }
  }

  /** initCluster with a non-empty list: the list is the record for its id,
      every member maps to that id, and the first member is matched both
      ways with every member, so all of them share its component. */
  lemma InitClusterFacts(e: Engine, id: nat, cluster: seq<nat>)
    requires WellFormed(e.matches) && Sorted(cluster) && cluster != []
    ensures var r := InitClusterSpec(e, id, cluster);
      && r.clusterIdToCluster == e.clusterIdToCluster[id := cluster]
      && (forall x :: x in cluster ==> x in r.nodeIdToClusterId && r.nodeIdToClusterId[x] == id)
      && (forall x :: x in cluster ==>
            Adjacent(r.matches, cluster[0], x) && Adjacent(r.matches, x, cluster[0]))
      && (forall x :: x in cluster ==> x in ComponentSet(r.matches, cluster[0]))
  {
    var r := InitClusterSpec(e, id, cluster);
    var front := cluster[0];
    SetMatchesWellFormed(e.matches, front, cluster);
    forall x | x in cluster
      ensures Adjacent(r.matches, front, x) && Adjacent(r.matches, x, front)
      ensures x in ComponentSet(r.matches, front)
    {
      SetMatchesAdjacency(e.matches, front, cluster, front, x);
      SetMatchesAdjacency(e.matches, front, cluster, x, front);
      ReachableSelf(r.matches, front);
      ReachableStep(r.matches, front, front, x);
    }
  }
}
