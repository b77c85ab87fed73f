/** The promise the clustering engine of connectivitymatrix.h keeps about
    its whole state: every assigned node is listed in its cluster's record,
    and that record is the node's connected component. Proved here to hold
    for the empty engine and to be kept by every updateMatches, together
    with what follows from it (records are disjoint, unmatched nodes have no
    cluster, a retired id stays retired). It does not say that every matched
    node has a cluster: a tear-down can leave matched nodes unassigned
    (MatchedButUnassigned). */
module Partition {
  import opened SortedSeqs
  import opened Graph
  import opened MatchMatrix
  import opened ClusteringSpec
  import opened ClusteringProperties
  import opened UpdateProperties
  import Findings

  /** Assignments and records that point at each other: each assigned
      node is listed in the record of its cluster, no record is empty, and
      each member of a record is assigned to it. */
  ghost predicate Listed(nodes: map<nat, nat>, recs: map<nat, seq<nat>>) {
    && (forall x :: x in nodes ==> nodes[x] in recs && x in recs[nodes[x]])
    && (forall id :: id in recs ==> recs[id] != [])
    && (forall id, x :: id in recs && x in recs[id] ==> x in nodes && nodes[x] == id)
  }

  /** Each record is the component of each of its members. */
  ghost predicate RecordsAreComponents(m: Adjacency, recs: map<nat, seq<nat>>) {
    forall id, x :: id in recs && x in recs[id] ==> recs[id] == Component(m, x)
  }

  /** Every assigned node is listed in its cluster's record, every record
      member is assigned to it, and every record is its members' connected
      component. */
  ghost predicate Partitioned(e: Engine) {
    Listed(e.nodeIdToClusterId, e.clusterIdToCluster) && RecordsAreComponents(e.matches, e.clusterIdToCluster)
  }

  /** What a partition gives: an assigned node has matches, is listed in
      its cluster's record, and that record is its component; a node
      without matches has no cluster; two records share no node. */
  lemma PartitionFacts(m: Adjacency, nodes: map<nat, nat>, recs: map<nat, seq<nat>>)
    requires Listed(nodes, recs) && RecordsAreComponents(m, recs)
    ensures forall x :: x in nodes ==>
              x in m && nodes[x] in recs && x in recs[nodes[x]] && recs[nodes[x]] == Component(m, x)
    ensures forall x :: x !in m ==> x !in nodes
    ensures forall i, j :: i in recs && j in recs && i != j ==> Elems(recs[i]) !! Elems(recs[j])
  {
    forall x | x in nodes ensures x in m {
      ComponentOfKey(m, x);
    }
    forall i, j | i in recs && j in recs && i != j ensures Elems(recs[i]) !! Elems(recs[j]) {
      forall x | x in Elems(recs[i]) ensures x !in Elems(recs[j]) {
        assert x in recs[i] && nodes[x] == i;
      }
    }
  }

  /* ---------------- the store, away from the probe ---------------- */

  /** A walk that starts in a set closed under the old matches, every node
      of which keeps its entry, is still a walk. */
  lemma PathKept(m0: Adjacency, m: Adjacency, k: set<nat>, path: seq<nat>)
    requires IsPath(m0, path) && path[0] in k
    requires forall v, w :: v in k && Adjacent(m0, v, w) ==> w in k
    requires forall a :: a in k ==> a in m0 && a in m && m[a] == m0[a]
    ensures IsPath(m, path)
  {
    forall i | 0 <= i < |path| - 1 ensures Adjacent(m, path[i], path[i + 1]) {
      var prefix := path[..i + 1];
      assert IsPath(m0, prefix);
      PathInClosedSet(m0, k, prefix);
      assert path[i] in k;
    }
  }

  /** A component is closed under matches. */
  lemma ComponentClosed(m: Adjacency, x: nat)
    requires Symmetric(m)
    ensures forall v, w :: v in ComponentSet(m, x) && Adjacent(m, v, w) ==> w in ComponentSet(m, x)
  {
    forall v, w | v in ComponentSet(m, x) && Adjacent(m, v, w) ensures w in ComponentSet(m, x) {
      assert Adjacent(m, w, v);
      ReachableStep(m, x, v, w);
    }
  }

  /** Re-setting p's matches leaves the entry of every node of a component
      that neither p nor any node of the new list belongs to. */
  lemma EntriesKept(m0: Adjacency, p: nat, updated: seq<nat>, x: nat)
    requires WellFormed(m0) && Sorted(updated)
    requires p !in ComponentSet(m0, x)
    requires forall l :: l in updated ==> l !in ComponentSet(m0, x)
    ensures var m := SetMatchesSpec(m0, p, updated);
      forall a :: a in ComponentSet(m0, x) ==> a in m0 && a in m && m[a] == m0[a]
  {
    ComponentClosed(m0, x);
    forall a | a in ComponentSet(m0, x)
      ensures a in m0 && a in SetMatchesSpec(m0, p, updated) && SetMatchesSpec(m0, p, updated)[a] == m0[a]
    {
      assert a in Get(m0, p) ==> Adjacent(m0, a, p);
      SetMatchesFrame(m0, p, updated, a);
    }
  }

  /** Two stores that give every node of x's component the same entry give
      x the same component. */
  lemma SameEntriesSameComponent(m0: Adjacency, m: Adjacency, x: nat)
    requires Symmetric(m0) && x in m0
    requires forall a :: a in ComponentSet(m0, x) ==> a in m0 && a in m && m[a] == m0[a]
    ensures ComponentSet(m, x) == ComponentSet(m0, x)
  {
    var k := ComponentSet(m0, x);
    ComponentClosed(m0, x);
    ReachableSelf(m0, x);
    forall y | y in ComponentSet(m, x) ensures y in k {
      ClosedSetHoldsReachable(m, k, x, y);
    }
    forall y | y in k ensures y in ComponentSet(m, x) {
      var path :| IsPath(m0, path) && path[0] == x && path[|path| - 1] == y;
      PathKept(m0, m, k, path);
    }
  }

  /** Re-setting p's matches to a new list leaves the component of x as it
      was when neither p nor any node of the list belongs to it. */
  lemma ComponentKept(m0: Adjacency, p: nat, updated: seq<nat>, x: nat)
    requires WellFormed(m0) && Sorted(updated) && x in m0
    requires p !in ComponentSet(m0, x)
    requires forall l :: l in updated ==> l !in ComponentSet(m0, x)
    ensures ComponentSet(SetMatchesSpec(m0, p, updated), x) == ComponentSet(m0, x)
  {
    EntriesKept(m0, p, updated, x);
    SameEntriesSameComponent(m0, SetMatchesSpec(m0, p, updated), x);
  }

  /** The nodes p is newly matched with lie in its new component. */
  lemma UpdatedInComponent(m0: Adjacency, p: nat, updated: seq<nat>)
    requires WellFormed(m0) && Sorted(updated)
    ensures var m := SetMatchesSpec(m0, p, updated);
      && (updated != [] <==> p in m)
      && (p in m ==> p in ComponentSet(m, p))
      && (forall l :: l in updated ==> l in ComponentSet(m, p))
  {
    var m := SetMatchesSpec(m0, p, updated);
    SetMatchesEntry(m0, p, updated, p);
    SetMatchesWellFormed(m0, p, updated);
    ReachableSelf(m, p);
    forall l | l in updated ensures l in ComponentSet(m, p) {
      assert Adjacent(m, p, l) && Adjacent(m, l, p);
      ReachableStep(m, p, p, l);
    }
  }

  /** A record that holds neither the probe nor a node of its new component
      is still the component of each of its members. */
  lemma RecordKept(m0: Adjacency, p: nat, updated: seq<nat>, y: nat)
    requires WellFormed(m0) && Sorted(updated) && y in m0
    requires p !in Component(m0, y)
    requires Elems(Component(m0, y)) !! Elems(Component(SetMatchesSpec(m0, p, updated), p))
    ensures Component(SetMatchesSpec(m0, p, updated), y) == Component(m0, y)
  {
    var m := SetMatchesSpec(m0, p, updated);
    UpdatedInComponent(m0, p, updated);
    assert p !in ComponentSet(m0, y) by {
      assert Elems(Component(m0, y)) == ComponentSet(m0, y);
    }
    forall l | l in updated ensures l !in ComponentSet(m0, y) {
      assert l in Elems(Component(m, p));
    }
    ComponentKept(m0, p, updated, y);
  }

  /** A record that shares no node with the probe's new component and does
      not hold the probe is still the component of each of its members. */
  lemma KeptRecord(m0: Adjacency, p: nat, updated: seq<nat>, recs: map<nat, seq<nat>>, id: nat)
    requires WellFormed(m0) && Sorted(updated) && RecordsAreComponents(m0, recs)
    requires id in recs && p !in recs[id]
    requires Elems(recs[id]) !! Elems(Component(SetMatchesSpec(m0, p, updated), p))
    ensures forall x :: x in recs[id] ==> recs[id] == Component(SetMatchesSpec(m0, p, updated), x)
  {
    forall x | x in recs[id] ensures recs[id] == Component(SetMatchesSpec(m0, p, updated), x) {
      ComponentOfKey(m0, x);
      RecordKept(m0, p, updated, x);
    }
  }

  /* ---------------- reclusterNodes, by id ---------------- */

  /** x lies in none of the records under the ids above base up to top. */
  ghost predicate InNoneById(x: nat, base: nat, top: nat, recs: map<nat, seq<nat>>) {
    forall id :: base < id <= top ==> x !in Get(recs, id)
  }

  /** The record under id is the component of a pool node with matches. */
  ghost predicate FreshFrom(m: Adjacency, pool: seq<nat>, rrecs: map<nat, seq<nat>>, id: nat) {
    ComponentFrom(m, pool, Get(rrecs, id))
  }

  /** What reclusterNodes on a pool leaves, read by id: the records on file
      stay, the ids above base up to top are new, each the non-empty
      component of a pool node with matches and each member assigned to it;
      every pool node with matches is in one of them, every pool node
      without matches loses its assignment, and every other node keeps its
      assignment. */
  ghost predicate Reclustered(m: Adjacency, pool: seq<nat>, base: nat, top: nat,
                              nodes: map<nat, nat>, recs: map<nat, seq<nat>>,
                              rnodes: map<nat, nat>, rrecs: map<nat, seq<nat>>) {
    && (forall id :: id in rrecs <==> id in recs || base < id <= top)
    && (forall id :: id in recs ==> rrecs[id] == recs[id])
    && (forall id :: base < id <= top ==> FreshFrom(m, pool, rrecs, id))
    && (forall id, x :: base < id <= top && x in Get(rrecs, id) ==> x in rnodes && rnodes[x] == id)
    && (forall x :: x in pool && x in m ==> !InNoneById(x, base, top, rrecs))
    && (forall x :: x in pool && x !in m ==> x !in rnodes)
    && (forall x :: InNoneById(x, base, top, rrecs) && !(x in pool && x !in m) ==>
          (x in rnodes <==> x in nodes) && (x in nodes ==> rnodes[x] == nodes[x]))
  }

  /** Nodes in none of the fresh records are in none of the collected
      clusters. */
  lemma InNoneByIdClusters(x: nat, base: nat, ids: seq<nat>, recs: map<nat, seq<nat>>)
    requires forall j :: 0 <= j < |ids| ==> ids[j] == base + 1 + j
    requires InNoneById(x, base, base + |ids|, recs)
    ensures InNone(x, RecordsOf(recs, ids))
  {
    forall j | 0 <= j < |ids| ensures x !in RecordsOf(recs, ids)[j] {
      assert RecordsOf(recs, ids)[j] == Get(recs, base + 1 + j);
    }
  }

  /** reclusterNodes leaves what Reclustered describes. */
  lemma ReclusterFacts(e: Engine, pool: seq<nat>)
    requires EngineValid(e) && Sorted(pool)
    ensures var rc := ReclusterSpec(e, pool);
      && rc.0.maxClusterId >= e.maxClusterId
      && Reclustered(e.matches, pool, e.maxClusterId, rc.0.maxClusterId,
                     e.nodeIdToClusterId, e.clusterIdToCluster, rc.0.nodeIdToClusterId, rc.0.clusterIdToCluster)
  {
    ReclusterRecords(e, pool);
    ReclusterFreshFrom(e, pool);
    ReclusterFreshFacts(e, pool);
    ReclusterKeptFacts(e, pool);
  }

  /** Each fresh record is the component of a pool node with matches. */
  lemma ReclusterFreshFrom(e: Engine, pool: seq<nat>)
    requires EngineValid(e) && Sorted(pool)
    ensures var rc := ReclusterSpec(e, pool);
      forall id :: e.maxClusterId < id <= rc.0.maxClusterId ==> FreshFrom(e.matches, pool, rc.0.clusterIdToCluster, id)
  {
    ReclusterComponentsById(e, pool);
  }

  /** The fresh records' members are assigned to them, and every pool node
      with matches is in one of them. */
  lemma ReclusterFreshFacts(e: Engine, pool: seq<nat>)
    requires EngineValid(e) && Sorted(pool)
    ensures var rc := ReclusterSpec(e, pool);
      var m, base, top, rnodes, rrecs := e.matches, e.maxClusterId, rc.0.maxClusterId,
                                         rc.0.nodeIdToClusterId, rc.0.clusterIdToCluster;
      && (forall id, x :: base < id <= top && x in Get(rrecs, id) ==> x in rnodes && rnodes[x] == id)
      && (forall x :: x in pool && x in m ==> !InNoneById(x, base, top, rrecs))
  {
    var rc := ReclusterSpec(e, pool);
    var m, base, top, rrecs := e.matches, e.maxClusterId, rc.0.maxClusterId, rc.0.clusterIdToCluster;
    ReclusterById(e, pool);
    forall x | x in pool && x in m ensures !InNoneById(x, base, top, rrecs) {
      var id :| base < id <= top && x in Get(rrecs, id);
    }
  }

  /** Pool nodes without matches lose their assignment and every node in
      no fresh record keeps its own. */
  lemma ReclusterKeptFacts(e: Engine, pool: seq<nat>)
    requires EngineValid(e) && Sorted(pool)
    ensures var rc := ReclusterSpec(e, pool);
      var m, base, top, nodes, rnodes, rrecs := e.matches, e.maxClusterId, rc.0.maxClusterId,
                                                e.nodeIdToClusterId, rc.0.nodeIdToClusterId, rc.0.clusterIdToCluster;
      && (forall x :: x in pool && x !in m ==> x !in rnodes)
      && (forall x :: InNoneById(x, base, top, rrecs) && !(x in pool && x !in m) ==>
            (x in rnodes <==> x in nodes) && (x in nodes ==> rnodes[x] == nodes[x]))
  {
    var rc := ReclusterSpec(e, pool);
    var base, top, rrecs, ids := e.maxClusterId, rc.0.maxClusterId, rc.0.clusterIdToCluster, rc.1;
    ReclusterKeeps(e, pool);
    assert |ids| == top - base && forall j :: 0 <= j < |ids| ==> ids[j] == base + 1 + j by {
      ReclusterRecords(e, pool);
    }
    forall x | InNoneById(x, base, top, rrecs) ensures InNone(x, RecordsOf(rrecs, ids)) {
      InNoneByIdClusters(x, base, ids, rrecs);
    }
  }

  /* ---------------- each branch keeps the partition ---------------- */

  /** Every member of p's component has that component. */
  lemma MembersShareComponent(m: Adjacency, p: nat)
    requires Symmetric(m)
    ensures forall x :: x in Component(m, p) ==> Component(m, x) == Component(m, p)
  {
    forall x | x in Component(m, p) ensures Component(m, x) == Component(m, p) {
      assert x in Elems(Component(m, p));
      ComponentOfMember(m, p, x);
    }
  }

  /** Releasing a cluster, its members and the probe (which, if assigned,
      is assigned to it) keeps records and assignments pointing at each
      other. */
  lemma ListedRelease(nodes: map<nat, nat>, recs: map<nat, seq<nat>>, gone: nat, probe: nat)
    requires Listed(nodes, recs)
    requires probe in nodes ==> nodes[probe] == gone
    ensures Listed(nodes - Elems(Get(recs, gone)) - {probe}, recs - {gone})
  {
    var nodes2 := nodes - Elems(Get(recs, gone)) - {probe};
    var recs2 := recs - {gone};
    forall x | x in nodes && nodes[x] == gone ensures x !in nodes2 {
      assert x in Elems(Get(recs, gone));
    }
    forall id, x | id in recs2 && x in recs2[id] ensures x in nodes2 && nodes2[x] == id {
      assert x in recs[id] && nodes[x] == id;
      assert x !in Elems(Get(recs, gone)) by {
        if gone in recs {
          assert x !in recs[gone];
        }
      }
    }
  }

  /** The tear-down branch: once the probe's list is empty, releasing the
      probe's cluster keeps the partition. */
  lemma TeardownPartitioned(e: Engine, probe: nat)
    requires EngineValid(e) && Partitioned(e)
    ensures Partitioned(RemovedProbeSpec(e.(matches := SetMatchesSpec(e.matches, probe, [])), probe).0)
  {
    var m0, nodes, recs := e.matches, e.nodeIdToClusterId, e.clusterIdToCluster;
    var m := SetMatchesSpec(m0, probe, []);
    var r := RemovedProbeSpec(e.(matches := m), probe).0;
    var gone := if probe in nodes then nodes[probe] else 0;
    var recs2 := if probe in nodes then recs - {gone} else recs;
    assert RecordsAreComponents(m, recs2) by {
      assert Elems(Component(m, probe)) == {} by {
        UpdatedInComponent(m0, probe, []);
        ComponentOfKey(m, probe);
      }
      forall j, x | j in recs2 && x in recs2[j] ensures recs2[j] == Component(m, x) {
        assert probe !in recs[j];
        KeptRecord(m0, probe, [], recs, j);
      }
    }
    if probe in nodes {
      ListedRelease(nodes, recs, gone, probe);
    }
  }

  /** Adding a fresh id's record of unassigned nodes, assigned to it, keeps
      records and assignments pointing at each other. */
  lemma ListedAdd(nodes: map<nat, nat>, recs: map<nat, seq<nat>>, id: nat, cluster: seq<nat>)
    requires Listed(nodes, recs) && id !in recs && cluster != []
    requires forall x :: x in cluster ==> x !in nodes
    ensures Listed(Assign(nodes, cluster, id), recs[id := cluster])
  {
  }

  /** Every record that shares no node with the probe's new component and
      does not hold the probe is still the component of its members. */
  lemma KeptRecords(m0: Adjacency, p: nat, updated: seq<nat>, recs: map<nat, seq<nat>>)
    requires WellFormed(m0) && Sorted(updated) && RecordsAreComponents(m0, recs)
    ensures var m := SetMatchesSpec(m0, p, updated);
      forall id, x :: id in recs && p !in recs[id] && Elems(recs[id]) !! Elems(Component(m, p)) && x in recs[id] ==>
        recs[id] == Component(m, x)
  {
    var m := SetMatchesSpec(m0, p, updated);
    forall id | id in recs && p !in recs[id] && Elems(recs[id]) !! Elems(Component(m, p))
      ensures forall x :: x in recs[id] ==> recs[id] == Component(m, x)
    {
      KeptRecord(m0, p, updated, recs, id);
    }
  }

  /** Records whose members are all assigned share no node with a list of
      unassigned nodes. */
  lemma UnassignedApart(nodes: map<nat, nat>, recs: map<nat, seq<nat>>, u: seq<nat>)
    requires Listed(nodes, recs)
    requires forall x :: x in u ==> x !in nodes
    ensures forall id :: id in recs ==> Elems(recs[id]) !! Elems(u)
    ensures forall id, x :: id in recs && x in u ==> x !in recs[id]
  {
    forall id, x | id in recs && x in Elems(recs[id]) ensures x !in Elems(u) {
      assert x in recs[id] && x in nodes;
    }
  }

  /** Once the probe's new component holds no assigned node, every record
      on file is still a component, and so is the new component. */
  lemma NewRecordsAreComponents(m0: Adjacency, probe: nat, updated: seq<nat>, nodes: map<nat, nat>,
                                recs: map<nat, seq<nat>>, id: nat)
    requires WellFormed(m0) && Sorted(updated)
    requires Listed(nodes, recs) && RecordsAreComponents(m0, recs)
    requires var u := Component(SetMatchesSpec(m0, probe, updated), probe);
      u != [] && forall x :: x in u ==> x !in nodes
    ensures var m := SetMatchesSpec(m0, probe, updated);
      RecordsAreComponents(m, recs[id := Component(m, probe)])
  {
    var m := SetMatchesSpec(m0, probe, updated);
    var u := Component(m, probe);
    assert forall x :: x in u ==> Component(m, x) == u by {
      SetMatchesWellFormed(m0, probe, updated);
      MembersShareComponent(m, probe);
    }
    assert probe in u by {
      UpdatedInComponent(m0, probe, updated);
      ComponentOfKey(m, probe);
      assert probe in Elems(u);
    }
    UnassignedApart(nodes, recs, u);
    KeptRecords(m0, probe, updated, recs);
    var r := recs[id := u];
    forall i, x | i in r && x in r[i] ensures r[i] == Component(m, x) {
      if i != id {
        assert x in recs[i] && probe !in recs[i] && Elems(recs[i]) !! Elems(u);
      }
    }
  }

  /** The new-cluster branch: a non-empty component none of whose nodes has
      a cluster becomes a cluster, and the partition is kept. */
  lemma NewClusterPartitioned(e: Engine, m: Adjacency, probe: nat, updated: seq<nat>)
    requires EngineValid(e) && Partitioned(e) && Sorted(updated)
    requires m == SetMatchesSpec(e.matches, probe, updated) && WellFormed(m)
    requires Component(m, probe) != [] && forall x :: x in Component(m, probe) ==> x !in e.nodeIdToClusterId
    ensures Partitioned(NewNodesSpec(e.(matches := m), Component(m, probe)).0)
  {
    var r := NewNodesSpec(e.(matches := m), Component(m, probe)).0;
    NewNodesFields(e, m, Component(m, probe));
    NewClusterKeeps(e.matches, probe, updated, e.nodeIdToClusterId, e.clusterIdToCluster, e.maxClusterId + 1);
    assert Listed(r.nodeIdToClusterId, r.clusterIdToCluster);
    assert RecordsAreComponents(r.matches, r.clusterIdToCluster);
  }

  /** The new-cluster branch records u under the next id and assigns its
      members to it. */
  lemma NewNodesFields(e: Engine, m: Adjacency, u: seq<nat>)
    ensures var r := NewNodesSpec(e.(matches := m), u).0;
      && r.matches == m
      && r.nodeIdToClusterId == Assign(e.nodeIdToClusterId, u, e.maxClusterId + 1)
      && r.clusterIdToCluster == e.clusterIdToCluster[e.maxClusterId + 1 := u]
  {
  }

  /** The new-cluster branch on maps: a non-empty component none of whose
      nodes is assigned, recorded under a fresh id with its members
      assigned to it, keeps the records listed and components. */
  lemma NewClusterKeeps(m0: Adjacency, probe: nat, updated: seq<nat>, nodes: map<nat, nat>,
                        recs: map<nat, seq<nat>>, id: nat)
    requires WellFormed(m0) && Sorted(updated)
    requires Listed(nodes, recs) && RecordsAreComponents(m0, recs) && id !in recs
    requires var u := Component(SetMatchesSpec(m0, probe, updated), probe);
      u != [] && forall x :: x in u ==> x !in nodes
    ensures var m := SetMatchesSpec(m0, probe, updated);
      var u := Component(m, probe);
      Listed(Assign(nodes, u, id), recs[id := u]) && RecordsAreComponents(m, recs[id := u])
  {
    ListedAdd(nodes, recs, id, Component(SetMatchesSpec(m0, probe, updated), probe));
    NewRecordsAreComponents(m0, probe, updated, nodes, recs, id);
  }

  /* ---------------- the merge branch ---------------- */

  /** The merge branch's inputs and reclusterNodes' result, as maps: the
      surviving cluster cid is on record and every id on record is at most
      base; u is the probe's new component; newNodes are the nodes of u
      outside cid's record, and the donors include the cluster of each
      that has one, cid excluded; the pool holds exactly the assigned nodes
      outside u whose cluster is cid or a donor; reclusterNodes ran on it
      with the donors' records erased; and each new cluster avoids u and
      every record kept. */
  ghost predicate MergeInputs(m: Adjacency, nodes: map<nat, nat>, recs: map<nat, seq<nat>>, cid: nat,
                              u: seq<nat>, newNodes: seq<nat>, donors: set<nat>, pool: seq<nat>,
                              base: nat, top: nat, rnodes: map<nat, nat>, rrecs: map<nat, seq<nat>>) {
    && MergeDonors(nodes, recs, cid, u, newNodes, donors, pool)
    && (forall id :: id in recs ==> id <= base)
    && u != []
    && Reclustered(m, pool, base, top, nodes, recs - donors, rnodes, rrecs)
    && FreshOutside(nodes, cid, u, donors, base, top, rrecs)
  }

  /** The records are listed; newNodes are the nodes of u outside cid's
      record; the donors include the cluster of each that has one, cid
      excluded; and the pool holds exactly the assigned nodes outside u
      whose cluster is cid or a donor. */
  ghost predicate MergeDonors(nodes: map<nat, nat>, recs: map<nat, seq<nat>>, cid: nat, u: seq<nat>,
                              newNodes: seq<nat>, donors: set<nat>, pool: seq<nat>) {
    && Listed(nodes, recs)
    && cid in recs && cid !in donors
    && (forall x :: x in newNodes <==> x in u && x !in recs[cid])
    && (forall x :: x in newNodes && x in nodes ==> nodes[x] in donors)
    && (forall x :: x in pool <==> x !in u && x in nodes && (nodes[x] in donors || nodes[x] == cid))
  }

  /** Each record under an id above base up to top avoids u and holds only
      nodes that are unassigned or assigned to cid or a donor. */
  ghost predicate FreshOutside(nodes: map<nat, nat>, cid: nat, u: seq<nat>, donors: set<nat>,
                               base: nat, top: nat, rrecs: map<nat, seq<nat>>) {
    forall id, x :: base < id <= top && x in Get(rrecs, id) ==>
      x !in u && (x in nodes ==> nodes[x] in donors || nodes[x] == cid)
  }

  /** A record that is neither the survivor's nor a donor's shares no node
      with the new component. */
  lemma KeptOutside(nodes: map<nat, nat>, recs: map<nat, seq<nat>>, cid: nat, u: seq<nat>,
                    newNodes: seq<nat>, donors: set<nat>)
    requires Listed(nodes, recs) && cid in recs
    requires forall x :: x in newNodes <==> x in u && x !in recs[cid]
    requires forall x :: x in newNodes && x in nodes ==> nodes[x] in donors
    ensures forall k, x :: k in recs && k !in donors && k != cid && x in recs[k] ==> x !in u
  {
    forall k, x | k in recs && k !in donors && k != cid && x in recs[k] ensures x !in u {
      assert nodes[x] == k;
      assert x !in recs[cid];
    }
  }

  /** The merge keeps every assigned node listed in its record. */
  lemma MergeAssignedListed(m: Adjacency, nodes: map<nat, nat>, recs: map<nat, seq<nat>>, cid: nat,
                            u: seq<nat>, newNodes: seq<nat>, donors: set<nat>, pool: seq<nat>,
                            base: nat, top: nat, rnodes: map<nat, nat>, rrecs: map<nat, seq<nat>>)
    requires MergeInputs(m, nodes, recs, cid, u, newNodes, donors, pool, base, top, rnodes, rrecs)
    ensures var nodes2, recs2 := Assign(rnodes, newNodes, cid), rrecs[cid := u];
      forall x :: x in nodes2 ==> nodes2[x] in recs2 && x in recs2[nodes2[x]]
  {
    var nodes2, recs2 := Assign(rnodes, newNodes, cid), rrecs[cid := u];
    forall x | x in rnodes && x !in newNodes ensures rnodes[x] in recs2 && x in recs2[rnodes[x]] {
      if !InNoneById(x, base, top, rrecs) {
        var f :| base < f <= top && x in Get(rrecs, f);
        assert rnodes[x] == f && f != cid;
      } else {
        StrandedOwner(m, nodes, recs, cid, u, newNodes, donors, pool, base, top, rnodes, rrecs, x);
      }
    }
  }

  /** An assigned node that reclusterNodes left alone keeps its cluster,
      and that cluster is listed after the merge: the survivor when the
      node is in the new component, a kept record otherwise. */
  lemma StrandedOwner(m: Adjacency, nodes: map<nat, nat>, recs: map<nat, seq<nat>>, cid: nat,
                      u: seq<nat>, newNodes: seq<nat>, donors: set<nat>, pool: seq<nat>,
                      base: nat, top: nat, rnodes: map<nat, nat>, rrecs: map<nat, seq<nat>>, x: nat)
    requires MergeInputs(m, nodes, recs, cid, u, newNodes, donors, pool, base, top, rnodes, rrecs)
    requires x in rnodes && x !in newNodes && InNoneById(x, base, top, rrecs)
    ensures rnodes[x] in rrecs[cid := u] && x in rrecs[cid := u][rnodes[x]]
  {
    assert !(x in pool && x !in m);
    assert !(x in pool);
    assert x in nodes && rnodes[x] == nodes[x];
    var j := nodes[x];
    assert j in recs && x in recs[j];
    if j == cid {
      assert x in u;
    } else {
      assert x !in recs[cid];
      assert x !in u && j !in donors;
      assert rrecs[j] == recs[j];
    }
  }

  /** The merge leaves no record empty. */
  lemma MergeNoneEmpty(m: Adjacency, nodes: map<nat, nat>, recs: map<nat, seq<nat>>, cid: nat,
                       u: seq<nat>, newNodes: seq<nat>, donors: set<nat>, pool: seq<nat>,
                       base: nat, top: nat, rnodes: map<nat, nat>, rrecs: map<nat, seq<nat>>)
    requires MergeInputs(m, nodes, recs, cid, u, newNodes, donors, pool, base, top, rnodes, rrecs)
    ensures var recs2 := rrecs[cid := u]; forall id :: id in recs2 ==> recs2[id] != []
  {
    forall id | id in rrecs && id != cid ensures rrecs[id] != [] {
      if base < id <= top {
        assert FreshFrom(m, pool, rrecs, id);
      } else {
        assert rrecs[id] == recs[id];
      }
    }
  }

  /** The merge assigns every member of every record to it. */
  lemma MergeMembersAssigned(m: Adjacency, nodes: map<nat, nat>, recs: map<nat, seq<nat>>, cid: nat,
                             u: seq<nat>, newNodes: seq<nat>, donors: set<nat>, pool: seq<nat>,
                             base: nat, top: nat, rnodes: map<nat, nat>, rrecs: map<nat, seq<nat>>)
    requires MergeInputs(m, nodes, recs, cid, u, newNodes, donors, pool, base, top, rnodes, rrecs)
    ensures var nodes2, recs2 := Assign(rnodes, newNodes, cid), rrecs[cid := u];
      forall id, x :: id in recs2 && x in recs2[id] ==> x in nodes2 && nodes2[x] == id
  {
    SurvivorMembersAssigned(m, nodes, recs, cid, u, newNodes, donors, pool, base, top, rnodes, rrecs);
    KeptMembersAssigned(m, nodes, recs, cid, u, newNodes, donors, pool, base, top, rnodes, rrecs);
    FreshMembersAssigned(m, nodes, recs, cid, u, newNodes, donors, pool, base, top, rnodes, rrecs);
    MergeKeys(m, nodes, recs, cid, u, newNodes, donors, pool, base, top, rnodes, rrecs);
    MembersByKind(Assign(rnodes, newNodes, cid), rrecs, recs, cid, u, donors, base, top);
  }

  /** Members are assigned to their record when that holds for the
      survivor's record, for each fresh one and for each kept one, and
      every other record is kept. */
  lemma MembersByKind(nodes2: map<nat, nat>, rrecs: map<nat, seq<nat>>, recs: map<nat, seq<nat>>,
                      cid: nat, u: seq<nat>, donors: set<nat>, base: nat, top: nat)
    requires forall x :: x in u ==> x in nodes2 && nodes2[x] == cid
    requires forall id, x :: base < id <= top && x in Get(rrecs, id) ==> x in nodes2 && nodes2[x] == id
    requires forall id, x :: id in recs && id !in donors && id != cid && x in recs[id] ==>
      x in nodes2 && nodes2[x] == id
    requires forall id :: id in rrecs ==> base < id <= top || (id in recs && id !in donors && rrecs[id] == recs[id])
    ensures var recs2 := rrecs[cid := u];
      forall id, x :: id in recs2 && x in recs2[id] ==> x in nodes2 && nodes2[x] == id
  {
    var recs2 := rrecs[cid := u];
    forall id, x | id in recs2 && x in recs2[id] ensures x in nodes2 && nodes2[x] == id {
      if id == cid {
      } else if base < id <= top {
        assert x in Get(rrecs, id);
      }
    }
  }

  /** After reclusterNodes, a record is fresh or one of those kept. */
  lemma MergeKeys(m: Adjacency, nodes: map<nat, nat>, recs: map<nat, seq<nat>>, cid: nat,
                  u: seq<nat>, newNodes: seq<nat>, donors: set<nat>, pool: seq<nat>,
                  base: nat, top: nat, rnodes: map<nat, nat>, rrecs: map<nat, seq<nat>>)
    requires MergeInputs(m, nodes, recs, cid, u, newNodes, donors, pool, base, top, rnodes, rrecs)
    ensures forall id :: id in rrecs ==> base < id <= top || (id in recs && id !in donors && rrecs[id] == recs[id])
  {
    forall id | id in rrecs && !(base < id <= top) ensures id in recs && id !in donors && rrecs[id] == recs[id] {
      assert id in recs - donors;
    }
  }

  /** Every member of a fresh record ends up assigned to it. */
  lemma FreshMembersAssigned(m: Adjacency, nodes: map<nat, nat>, recs: map<nat, seq<nat>>, cid: nat,
                             u: seq<nat>, newNodes: seq<nat>, donors: set<nat>, pool: seq<nat>,
                             base: nat, top: nat, rnodes: map<nat, nat>, rrecs: map<nat, seq<nat>>)
    requires MergeInputs(m, nodes, recs, cid, u, newNodes, donors, pool, base, top, rnodes, rrecs)
    ensures var nodes2 := Assign(rnodes, newNodes, cid);
      forall id, x :: base < id <= top && x in Get(rrecs, id) ==> x in nodes2 && nodes2[x] == id
  {
    FreshAssigned(u, newNodes, recs[cid], cid, base, top, rnodes, rrecs);
  }

  /** A fresh record's members are outside the new component, so the
      assignment of its new nodes leaves them where reclusterNodes put them. */
  lemma FreshAssigned(u: seq<nat>, newNodes: seq<nat>, survivor: seq<nat>, cid: nat,
                      base: nat, top: nat, rnodes: map<nat, nat>, rrecs: map<nat, seq<nat>>)
    requires forall x :: x in newNodes <==> x in u && x !in survivor
    requires forall id, x :: base < id <= top && x in Get(rrecs, id) ==> x in rnodes && rnodes[x] == id
    requires forall id, x :: base < id <= top && x in Get(rrecs, id) ==> x !in u
    ensures var nodes2 := Assign(rnodes, newNodes, cid);
      forall id, x :: base < id <= top && x in Get(rrecs, id) ==> x in nodes2 && nodes2[x] == id
  {
    forall id, x | base < id <= top && x in Get(rrecs, id) ensures x in rnodes && rnodes[x] == id && x !in newNodes {
    }
  }

  /** Every node of the new component ends up assigned to the survivor. */
  lemma SurvivorMembersAssigned(m: Adjacency, nodes: map<nat, nat>, recs: map<nat, seq<nat>>, cid: nat,
                                u: seq<nat>, newNodes: seq<nat>, donors: set<nat>, pool: seq<nat>,
                                base: nat, top: nat, rnodes: map<nat, nat>, rrecs: map<nat, seq<nat>>)
    requires MergeInputs(m, nodes, recs, cid, u, newNodes, donors, pool, base, top, rnodes, rrecs)
    ensures var nodes2 := Assign(rnodes, newNodes, cid);
      forall x :: x in u ==> x in nodes2 && nodes2[x] == cid
  {
    forall x | x in u && x !in newNodes ensures x in rnodes && rnodes[x] == cid {
      assert x in recs[cid] && nodes[x] == cid;
      assert x !in pool;
      assert InNoneById(x, base, top, rrecs);
    }
  }

  /** Every member of a record the merge keeps stays assigned to it. */
  lemma KeptMembersAssigned(m: Adjacency, nodes: map<nat, nat>, recs: map<nat, seq<nat>>, cid: nat,
                            u: seq<nat>, newNodes: seq<nat>, donors: set<nat>, pool: seq<nat>,
                            base: nat, top: nat, rnodes: map<nat, nat>, rrecs: map<nat, seq<nat>>)
    requires MergeInputs(m, nodes, recs, cid, u, newNodes, donors, pool, base, top, rnodes, rrecs)
    ensures var nodes2 := Assign(rnodes, newNodes, cid);
      forall id, x :: id in recs && id !in donors && id != cid && x in recs[id] ==>
        x in nodes2 && nodes2[x] == id
  {
    KeptOutside(nodes, recs, cid, u, newNodes, donors);
    forall id, x | id in recs && id !in donors && id != cid && x in recs[id]
      ensures x in rnodes && rnodes[x] == id && x !in newNodes
    {
      assert nodes[x] == id && x !in u && x !in pool;
      assert InNoneById(x, base, top, rrecs);
    }
  }

  /** The merge lists its nodes exactly as its records say. */
  lemma ListedMerge(m: Adjacency, nodes: map<nat, nat>, recs: map<nat, seq<nat>>, cid: nat,
                    u: seq<nat>, newNodes: seq<nat>, donors: set<nat>, pool: seq<nat>,
                    base: nat, top: nat, rnodes: map<nat, nat>, rrecs: map<nat, seq<nat>>)
    requires MergeInputs(m, nodes, recs, cid, u, newNodes, donors, pool, base, top, rnodes, rrecs)
    ensures Listed(Assign(rnodes, newNodes, cid), rrecs[cid := u])
  {
    MergeAssignedListed(m, nodes, recs, cid, u, newNodes, donors, pool, base, top, rnodes, rrecs);
    MergeNoneEmpty(m, nodes, recs, cid, u, newNodes, donors, pool, base, top, rnodes, rrecs);
    MergeMembersAssigned(m, nodes, recs, cid, u, newNodes, donors, pool, base, top, rnodes, rrecs);
  }

  /** A component grown from a pool node outside u shares no node with u,
      and none of its nodes belongs to a record that is kept: such a
      record is that very component, which would make the pool node a
      member of it. */
  lemma FreshApart(m: Adjacency, nodes: map<nat, nat>, recs: map<nat, seq<nat>>, cid: nat,
                   p: nat, donors: set<nat>, pool: seq<nat>, f: seq<nat>)
    requires Symmetric(m) && Listed(nodes, recs)
    requires forall k, x :: k in recs && k !in donors && k != cid && x in recs[k] ==> recs[k] == Component(m, x)
    requires forall x :: x in pool <==>
      x !in Component(m, p) && x in nodes && (nodes[x] in donors || nodes[x] == cid)
    requires ComponentFrom(m, pool, f)
    ensures forall x :: x in f ==>
      x !in Component(m, p) && (x in nodes ==> nodes[x] in donors || nodes[x] == cid)
  {
    var y :| y in pool && y in m && f == Component(m, y);
    ComponentOfKey(m, y);
    assert y in f by {
      assert y in Elems(Component(m, y));
    }
    ComponentsDisjointOrEqual(m, p, y);
    assert y !in ComponentSet(m, p) by {
      assert y !in Elems(Component(m, p));
    }
    forall x | x in f ensures x !in Component(m, p) && (x in nodes ==> nodes[x] in donors || nodes[x] == cid) {
      assert x in ComponentSet(m, y) by {
        assert x in Elems(Component(m, y));
      }
      ComponentOfMember(m, y, x);
      assert Component(m, x) == f;
      assert x !in Elems(Component(m, p));
    }
  }

  /** FreshApart for every fresh record at once. */
  lemma FreshAllApart(m: Adjacency, nodes: map<nat, nat>, recs: map<nat, seq<nat>>, cid: nat,
                      p: nat, donors: set<nat>, pool: seq<nat>, base: nat, top: nat, rrecs: map<nat, seq<nat>>)
    requires Symmetric(m) && Listed(nodes, recs)
    requires forall k, x :: k in recs && k !in donors && k != cid && x in recs[k] ==> recs[k] == Component(m, x)
    requires forall x :: x in pool <==>
      x !in Component(m, p) && x in nodes && (nodes[x] in donors || nodes[x] == cid)
    requires forall id :: base < id <= top ==> FreshFrom(m, pool, rrecs, id)
    ensures FreshOutside(nodes, cid, Component(m, p), donors, base, top, rrecs)
  {
    forall id | base < id <= top
      ensures forall x :: x in Get(rrecs, id) ==>
        x !in Component(m, p) && (x in nodes ==> nodes[x] in donors || nodes[x] == cid)
    {
      assert FreshFrom(m, pool, rrecs, id);
      FreshApart(m, nodes, recs, cid, p, donors, pool, Get(rrecs, id));
    }
  }

  /** After the merge every record is the component of each member: the
      survivor's is u, a new one is the component it was grown from, and a
      kept one is the component it already was. */
  lemma RecordsMerge(m: Adjacency, nodes: map<nat, nat>, recs: map<nat, seq<nat>>, cid: nat,
                     p: nat, newNodes: seq<nat>, donors: set<nat>, pool: seq<nat>,
                     base: nat, top: nat, rnodes: map<nat, nat>, rrecs: map<nat, seq<nat>>)
    requires Symmetric(m)
    requires MergeInputs(m, nodes, recs, cid, Component(m, p), newNodes, donors, pool, base, top, rnodes, rrecs)
    requires forall k, x :: k in recs && k !in donors && k != cid && x in recs[k] ==> recs[k] == Component(m, x)
    ensures RecordsAreComponents(m, rrecs[cid := Component(m, p)])
  {
    var u := Component(m, p);
    var recs2 := rrecs[cid := u];
    MembersShareComponent(m, p);
    forall id, x | id in recs2 && x in recs2[id] ensures recs2[id] == Component(m, x) {
      if id == cid {
      } else if base < id <= top {
        assert FreshFrom(m, pool, rrecs, id);
        var y :| y in pool && y in m && Get(rrecs, id) == Component(m, y);
        MembersShareComponent(m, y);
      } else {
        assert id in recs - donors;
      }
    }
  }

  /** The records the merge neither keeps for the survivor nor erases as
      donors are still components once the probe's matches are rewritten:
      none of them reaches into the probe's new component. */
  lemma KeptComponents(m0: Adjacency, probe: nat, updated: seq<nat>, nodes: map<nat, nat>,
                       recs: map<nat, seq<nat>>, cid: nat, newNodes: seq<nat>, donors: set<nat>)
    requires WellFormed(m0) && Sorted(updated)
    requires Listed(nodes, recs) && RecordsAreComponents(m0, recs) && cid in recs
    requires var u := Component(SetMatchesSpec(m0, probe, updated), probe);
      && u != []
      && (forall x :: x in newNodes <==> x in u && x !in recs[cid])
      && (forall x :: x in newNodes && x in nodes ==> nodes[x] in donors)
    ensures var m := SetMatchesSpec(m0, probe, updated);
      forall k, x :: k in recs && k !in donors && k != cid && x in recs[k] ==> recs[k] == Component(m, x)
  {
    var m := SetMatchesSpec(m0, probe, updated);
    var u := Component(m, probe);
    assert probe in u by {
      UpdatedInComponent(m0, probe, updated);
      ComponentOfKey(m, probe);
      assert probe in Elems(u);
    }
    KeptOutside(nodes, recs, cid, u, newNodes, donors);
    KeptRecords(m0, probe, updated, recs);
    forall k | k in recs && k !in donors && k != cid ensures probe !in recs[k] && Elems(recs[k]) !! Elems(u) {
    }
  }

  /** With the records listed, the nodes that a set of clusters leaves
      outside a sequence are exactly the assigned nodes outside it whose
      cluster is in the set. */
  lemma StrandedListed(nodes: map<nat, nat>, recs: map<nat, seq<nat>>, ids: set<nat>, u: seq<nat>)
    requires Listed(nodes, recs)
    ensures forall x :: x in Stranded(recs, ids, u) <==> x !in u && x in nodes && nodes[x] in ids
  {
    forall x | x !in u && x in nodes && nodes[x] in ids ensures x in Stranded(recs, ids, u) {
      assert nodes[x] in recs && x in recs[nodes[x]];
    }
  }

  /** No new node is already in the survivor's record, so the survivor is
      never among the donors. */
  lemma SurvivorNotDonor(nodes: map<nat, nat>, recs: map<nat, seq<nat>>, cid: nat, u: seq<nat>)
    requires Listed(nodes, recs) && cid in recs && Sorted(recs[cid]) && Sorted(u)
    ensures cid !in ClusterIdsOf(nodes, Difference(u, recs[cid]))
  {
    DifferenceMembers(u, recs[cid]);
    forall x | x in Difference(u, recs[cid]) && x in nodes ensures nodes[x] != cid {
      assert x in recs[nodes[x]];
    }
  }

  /** The donors are the clusters of the new nodes, never the survivor,
      and the pool is what the survivor's and the donors' records leave
      outside u. */
  lemma DonorFacts(nodes: map<nat, nat>, recs: map<nat, seq<nat>>, cid: nat, u: seq<nat>, pool: seq<nat>)
    requires Listed(nodes, recs) && cid in recs && Sorted(recs[cid]) && Sorted(u)
    requires Elems(pool) == Stranded(recs, ClusterIdsOf(nodes, Difference(u, recs[cid])) + {cid}, u)
    ensures var newNodes := Difference(u, recs[cid]);
      MergeDonors(nodes, recs, cid, u, newNodes, ClusterIdsOf(nodes, newNodes), pool)
  {
    var newNodes := Difference(u, recs[cid]);
    var donors := ClusterIdsOf(nodes, newNodes);
    DifferenceMembers(u, recs[cid]);
    SurvivorNotDonor(nodes, recs, cid, u);
    StrandedListed(nodes, recs, donors + {cid}, u);
    forall x ensures x in pool <==> x in Elems(pool) {
    }
  }

  /** The records the merge keeps, those of clusters holding no new node,
      are still components of the rewritten graph. */
  lemma MergeKeepsComponents(m0: Adjacency, probe: nat, updated: seq<nat>, nodes: map<nat, nat>,
                             recs: map<nat, seq<nat>>, cid: nat)
    requires WellFormed(m0) && Sorted(updated)
    requires Listed(nodes, recs) && RecordsAreComponents(m0, recs) && cid in recs && Sorted(recs[cid])
    requires Component(SetMatchesSpec(m0, probe, updated), probe) != []
    ensures var m := SetMatchesSpec(m0, probe, updated);
      var donors := ClusterIdsOf(nodes, Difference(Component(m, probe), recs[cid]));
      forall k, x :: k in recs && k !in donors && k != cid && x in recs[k] ==> recs[k] == Component(m, x)
  {
    var u := Component(SetMatchesSpec(m0, probe, updated), probe);
    DifferenceMembers(u, recs[cid]);
    KeptComponents(m0, probe, updated, nodes, recs, cid, Difference(u, recs[cid]),
                   ClusterIdsOf(nodes, Difference(u, recs[cid])));
  }

  /** The parts of the merge of p's component into a recorded cluster meet
      MergeInputs: the records reclusterNodes grows from the pool lie
      outside the component and hold only nodes of the donors or of the
      survivor. */
  lemma MergeInputsOf(m: Adjacency, p: nat, ePre: Engine, pool: seq<nat>, recs: map<nat, seq<nat>>, cid: nat)
    requires Symmetric(m) && Listed(ePre.nodeIdToClusterId, recs)
    requires cid in recs && Sorted(recs[cid]) && Component(m, p) != []
    requires forall id :: id in recs ==> id <= ePre.maxClusterId
    requires EngineValid(ePre) && Sorted(pool) && ePre.matches == m
    requires var nodes, u := ePre.nodeIdToClusterId, Component(m, p);
      var donors := ClusterIdsOf(nodes, Difference(u, recs[cid]));
      && ePre.clusterIdToCluster == recs - donors
      && Elems(pool) == Stranded(recs, donors + {cid}, u)
      && (forall k, x :: k in recs && k !in donors && k != cid && x in recs[k] ==> recs[k] == Component(m, x))
    ensures var nodes, u, rc := ePre.nodeIdToClusterId, Component(m, p), ReclusterSpec(ePre, pool).0;
      var newNodes := Difference(u, recs[cid]);
      MergeInputs(m, nodes, recs, cid, u, newNodes, ClusterIdsOf(nodes, newNodes), pool, ePre.maxClusterId,
                  rc.maxClusterId, rc.nodeIdToClusterId, rc.clusterIdToCluster)
  {
    var nodes, u, rc := ePre.nodeIdToClusterId, Component(m, p), ReclusterSpec(ePre, pool).0;
    var donors := ClusterIdsOf(nodes, Difference(u, recs[cid]));
    DonorFacts(nodes, recs, cid, u, pool);
    ReclusterFreshFrom(ePre, pool);
    FreshAllApart(m, nodes, recs, cid, p, donors, pool, ePre.maxClusterId, rc.maxClusterId, rc.clusterIdToCluster);
    MergeInputsHold(m, u, Difference(u, recs[cid]), donors, ePre, pool, recs, cid);
  }

  /** The parts of the merge of a non-empty component u into a recorded
      cluster: with the donors' records dropped and the pool that is left
      outside u re-clustered, MergeInputs holds once the fresh records are
      known to lie outside u. */
  lemma MergeInputsHold(m: Adjacency, u: seq<nat>, newNodes: seq<nat>, donors: set<nat>, ePre: Engine,
                        pool: seq<nat>, recs: map<nat, seq<nat>>, cid: nat)
    requires MergeDonors(ePre.nodeIdToClusterId, recs, cid, u, newNodes, donors, pool)
    requires forall id :: id in recs ==> id <= ePre.maxClusterId
    requires u != [] && EngineValid(ePre) && Sorted(pool) && ePre.matches == m
    requires ePre.clusterIdToCluster == recs - donors
    requires var rc := ReclusterSpec(ePre, pool).0;
      FreshOutside(ePre.nodeIdToClusterId, cid, u, donors, ePre.maxClusterId, rc.maxClusterId, rc.clusterIdToCluster)
    ensures var rc := ReclusterSpec(ePre, pool).0;
      MergeInputs(m, ePre.nodeIdToClusterId, recs, cid, u, newNodes, donors, pool, ePre.maxClusterId,
                  rc.maxClusterId, rc.nodeIdToClusterId, rc.clusterIdToCluster)
  {
    ReclusterFacts(ePre, pool);
  }

  /** The merge of the probe's new component u into a recorded cluster in
      terms of reclusterNodes: the donors' records dropped, the pool left
      outside u, and the result assembled from what reclusterNodes leaves. */
  lemma MergeShape(e: Engine, m: Adjacency, probe: nat, updated: seq<nat>, cid: nat)
    returns (ePre: Engine, pool: seq<nat>)
    requires EngineValid(e) && Sorted(updated)
    requires m == SetMatchesSpec(e.matches, probe, updated) && WellFormed(m)
    requires cid in e.clusterIdToCluster
    ensures EngineValid(ePre) && Sorted(pool) && ePre.matches == m
    ensures ePre.nodeIdToClusterId == e.nodeIdToClusterId && ePre.maxClusterId == e.maxClusterId
    ensures var nodes, recs, u := e.nodeIdToClusterId, e.clusterIdToCluster, Component(m, probe);
      var donors := ClusterIdsOf(nodes, Difference(u, recs[cid]));
      && ePre.clusterIdToCluster == recs - donors
      && Elems(pool) == Stranded(recs, donors + {cid}, u)
    ensures var u, rc := Component(m, probe), ReclusterSpec(ePre, pool).0;
      var r := ClusteredSpec(e.(matches := m), cid, u).0;
      && r.matches == m
      && r.nodeIdToClusterId == Assign(rc.nodeIdToClusterId, Difference(u, e.clusterIdToCluster[cid]), cid)
      && r.clusterIdToCluster == rc.clusterIdToCluster[cid := u]
  {
    var u := Component(m, probe);
    assert cid <= e.maxClusterId;
    ePre, pool := ClusteredParts(e.(matches := m), cid, u);
  }

  /** MergeInputs holds of the merge's parts, and the records it keeps are
      components of the rewritten graph. */
  lemma MergePartsInputs(m0: Adjacency, m: Adjacency, probe: nat, updated: seq<nat>,
                         ePre: Engine, pool: seq<nat>, recs: map<nat, seq<nat>>, cid: nat)
    requires WellFormed(m0) && Sorted(updated)
    requires m == SetMatchesSpec(m0, probe, updated) && WellFormed(m)
    requires Listed(ePre.nodeIdToClusterId, recs) && RecordsAreComponents(m0, recs)
    requires cid in recs && Sorted(recs[cid]) && Component(m, probe) != []
    requires forall id :: id in recs ==> id <= ePre.maxClusterId
    requires EngineValid(ePre) && Sorted(pool) && ePre.matches == m
    requires var nodes, u := ePre.nodeIdToClusterId, Component(m, probe);
      var donors := ClusterIdsOf(nodes, Difference(u, recs[cid]));
      && ePre.clusterIdToCluster == recs - donors
      && Elems(pool) == Stranded(recs, donors + {cid}, u)
    ensures var nodes, u, rc := ePre.nodeIdToClusterId, Component(m, probe), ReclusterSpec(ePre, pool).0;
      var newNodes := Difference(u, recs[cid]);
      var donors := ClusterIdsOf(nodes, newNodes);
      && MergeInputs(m, nodes, recs, cid, u, newNodes, donors, pool, ePre.maxClusterId, rc.maxClusterId,
                     rc.nodeIdToClusterId, rc.clusterIdToCluster)
      && (forall k, x :: k in recs && k !in donors && k != cid && x in recs[k] ==> recs[k] == Component(m, x))
  {
    MergeKeepsComponents(m0, probe, updated, ePre.nodeIdToClusterId, recs, cid);
    MergeInputsOf(m, probe, ePre, pool, recs, cid);
  }

  /** The merge keeps the partition, read off its parts. */
  lemma MergePartsPartitioned(m0: Adjacency, m: Adjacency, probe: nat, updated: seq<nat>,
                              ePre: Engine, pool: seq<nat>, recs: map<nat, seq<nat>>, cid: nat)
    requires WellFormed(m0) && Sorted(updated)
    requires m == SetMatchesSpec(m0, probe, updated) && WellFormed(m)
    requires Listed(ePre.nodeIdToClusterId, recs) && RecordsAreComponents(m0, recs)
    requires cid in recs && Sorted(recs[cid]) && Component(m, probe) != []
    requires forall id :: id in recs ==> id <= ePre.maxClusterId
    requires EngineValid(ePre) && Sorted(pool) && ePre.matches == m
    requires var nodes, u := ePre.nodeIdToClusterId, Component(m, probe);
      var donors := ClusterIdsOf(nodes, Difference(u, recs[cid]));
      && ePre.clusterIdToCluster == recs - donors
      && Elems(pool) == Stranded(recs, donors + {cid}, u)
    ensures var u, rc := Component(m, probe), ReclusterSpec(ePre, pool).0;
      var nodes2 := Assign(rc.nodeIdToClusterId, Difference(u, recs[cid]), cid);
      var recs2 := rc.clusterIdToCluster[cid := u];
      Listed(nodes2, recs2) && RecordsAreComponents(m, recs2)
  {
    var nodes, u, rc := ePre.nodeIdToClusterId, Component(m, probe), ReclusterSpec(ePre, pool).0;
    var newNodes := Difference(u, recs[cid]);
    var donors := ClusterIdsOf(nodes, newNodes);
    MergePartsInputs(m0, m, probe, updated, ePre, pool, recs, cid);
    ListedMerge(m, nodes, recs, cid, u, newNodes, donors, pool, ePre.maxClusterId, rc.maxClusterId,
                rc.nodeIdToClusterId, rc.clusterIdToCluster);
    RecordsMerge(m, nodes, recs, cid, probe, newNodes, donors, pool, ePre.maxClusterId, rc.maxClusterId,
                 rc.nodeIdToClusterId, rc.clusterIdToCluster);
  }

  /** Merging the probe's new component into any recorded cluster keeps
      the partition; m is the rewritten graph. */
  lemma MergeIntoPartitioned(e: Engine, m: Adjacency, probe: nat, updated: seq<nat>, cid: nat)
    requires EngineValid(e) && Partitioned(e) && Sorted(updated)
    requires m == SetMatchesSpec(e.matches, probe, updated) && WellFormed(m)
    requires cid in e.clusterIdToCluster && Component(m, probe) != []
    ensures Partitioned(ClusteredSpec(e.(matches := m), cid, Component(m, probe)).0)
  {
    var ePre, pool := MergeShape(e, m, probe, updated, cid);
    MergePartsPartitioned(e.matches, m, probe, updated, ePre, pool, e.clusterIdToCluster, cid);
  }

  /** The partition holds for the engine with no matches and no clusters. */
  lemma EmptyPartitioned()
    ensures Partitioned(EmptyEngine)
  {
  }

  /** Every updateMatches keeps the partition: each assigned node is
      listed in its record, that record is the node's connected component,
      no record is empty, and (by PartitionFacts) records are disjoint and
      nodes without matches have no cluster. */
  lemma UpdateMatchesPartitioned(e: Engine, probe: nat, updated: seq<nat>)
    requires EngineValid(e) && Partitioned(e) && Sorted(updated)
    ensures Partitioned(UpdateMatchesSpec(e, probe, updated).0)
  {
    var m := SetMatchesSpec(e.matches, probe, updated);
    SetMatchesWellFormed(e.matches, probe, updated);
    var u := Component(m, probe);
    var i := FindClustered(e.nodeIdToClusterId, u);
    assert UpdateMatchesSpec(e, probe, updated) == UpdateClusteringSpec(e.(matches := m), probe, u);
    if i < |u| {
      var cid := e.nodeIdToClusterId[u[i]];
      assert cid in e.clusterIdToCluster;
      MergeIntoPartitioned(e, m, probe, updated, cid);
    } else if u == [] {
      assert updated == [] by {
        UpdatedInComponent(e.matches, probe, updated);
        ComponentOfKey(m, probe);
      }
      TeardownPartitioned(e, probe);
    } else {
      FindClusteredLowest(e.nodeIdToClusterId, u);
      NewClusterPartitioned(e, m, probe, updated);
    }
  }

  /** Re-sending a node's current matches changes no state and reports no
      change: the store is the same, so the probe's component is the same,
      and a partitioned engine already holds it as the probe's record. The
      probe must have a cluster when it has matches (a partition leaves a
      matched node unassigned after a tear-down; see MatchedButUnassigned). */
  lemma UpdateMatchesIdempotent(e: Engine, probe: nat)
    requires EngineValid(e) && Partitioned(e)
    requires probe in e.matches ==> probe in e.nodeIdToClusterId
    ensures Sorted(Get(e.matches, probe))
    ensures var r := UpdateMatchesSpec(e, probe, Get(e.matches, probe));
      && r.0 == e
      && r.1.removedClusters == []
      && (forall id :: id in r.1.clusterUpdates ==> r.1.clusterUpdates[id] == ClusterUpdate([], []))
  {
    var m := e.matches;
    SetMatchesIdempotent(m, probe);
    assert e.(matches := m) == e;
    assert UpdateMatchesSpec(e, probe, Get(m, probe)) == UpdateClusteringSpec(e, probe, Component(m, probe));
    ComponentOfKey(m, probe);
    if probe in m {
      ClusteredProbeUnchanged(e, probe);
    } else {
      PartitionFacts(m, e.nodeIdToClusterId, e.clusterIdToCluster);
    }
  }

  /** A clustered probe's record already is its component, so reconciling
      with that component finds the probe's own cluster and changes
      nothing. */
  lemma ClusteredProbeUnchanged(e: Engine, probe: nat)
    requires EngineValid(e) && Partitioned(e) && probe in e.nodeIdToClusterId
    ensures var cid := e.nodeIdToClusterId[probe];
      UpdateClusteringSpec(e, probe, Component(e.matches, probe)) ==
        (e, ClusteringUpdate(map[cid := ClusterUpdate([], [])], []))
  {
    var cid := e.nodeIdToClusterId[probe];
    var u := Component(e.matches, probe);
    assert cid in e.clusterIdToCluster && probe in e.clusterIdToCluster[cid];
    assert e.clusterIdToCluster[cid] == u;
    var i := FindClustered(e.nodeIdToClusterId, u);
    FindClusteredLowest(e.nodeIdToClusterId, u);
    assert i < |u| && u[i] in e.clusterIdToCluster[cid];
    ClusteredUnchanged(e, cid, u);
  }

  /** The path 1-2-3. */
  const Path: Adjacency := map[1 := [2], 2 := [1, 3], 3 := [2]]

  /** The path on record as cluster 1. */
  const PathClustered: Engine := Engine(Path, map[1 := 1, 2 := 1, 3 := 1], map[1 := [1, 2, 3]], 1)

  /** The path's edges are 1-2 and 2-3, both ways. */
  lemma PathAdjacency(v: nat, w: nat)
    ensures Adjacent(Path, v, w) <==> Findings.PathEdge(v, w)
  {
    if v == 1 {
      assert Path[1] == [2];
    } else if v == 2 {
      assert Path[2] == [1, 3];
    } else if v == 3 {
      assert Path[3] == [2];
    }
  }

  /** The path is a well-formed store. */
  lemma PathWellFormed()
    ensures WellFormed(Path)
  {
    assert Sorted([2]) && Sorted([1, 3]);
    forall v, w | Adjacent(Path, v, w) ensures Adjacent(Path, w, v) {
      PathAdjacency(v, w);
      PathAdjacency(w, v);
    }
  }

  /** Every node of the path has the whole path as its component. */
  lemma PathComponents(x: nat)
    requires x in [1, 2, 3]
    ensures Component(Path, x) == [1, 2, 3]
  {
    PathWellFormed();
    forall v, w ensures Adjacent(Path, v, w) <==> Findings.PathEdge(v, w) {
      PathAdjacency(v, w);
    }
    Findings.PathComponent(Path);
    assert x in Elems(Component(Path, 3));
    ComponentOfMember(Path, 3, x);
  }

  /** The path on record as one cluster is a valid partitioned state. */
  lemma PathPartitioned()
    ensures EngineValid(PathClustered) && Partitioned(PathClustered)
  {
    var recs := PathClustered.clusterIdToCluster;
    PathWellFormed();
    assert Sorted([1, 2, 3]);
    assert Listed(PathClustered.nodeIdToClusterId, recs);
    forall id, x | id in recs && x in recs[id] ensures recs[id] == Component(Path, x) {
      assert id == 1;
      PathComponents(x);
    }
  }

  /** A partition does not promise that every matched node has a cluster:
      tearing down the path's cluster from its end node 3 releases all three
      nodes, though 1 and 2 still match each other, and the result is still
      partitioned. The tear-down of connectivitymatrix.h does not re-cluster
      the rest of the component either. */
  lemma MatchedButUnassigned()
    ensures EngineValid(PathClustered) && Partitioned(PathClustered)
    ensures var r := UpdateMatchesSpec(PathClustered, 3, []);
      && r.1.removedClusters == [1]
      && Adjacent(r.0.matches, 1, 2)
      && 1 !in r.0.nodeIdToClusterId && 2 !in r.0.nodeIdToClusterId
      && Partitioned(r.0)
  {
    PathPartitioned();
    UpdateMatchesPartitioned(PathClustered, 3, []);
    PathTornDown();
    PathCutEntries();
  }

  /** Tearing down the path's cluster from node 3 reports cluster 1
      removed and releases its members. */
  lemma PathTornDown()
    ensures EngineValid(PathClustered)
    ensures var r := UpdateMatchesSpec(PathClustered, 3, []);
      && r.0.matches == SetMatchesSpec(Path, 3, [])
      && r.1.removedClusters == [1]
      && 1 !in r.0.nodeIdToClusterId && 2 !in r.0.nodeIdToClusterId
  {
    PathPartitioned();
    EmptyListTearsDown(PathClustered, 3);
    assert 1 in Get(PathClustered.clusterIdToCluster, 1) && 2 in Get(PathClustered.clusterIdToCluster, 1) by {
      assert PathClustered.clusterIdToCluster[1] == [1, 2, 3];
    }
  }

  /** Cutting node 3 off the path leaves node 1 its match 2. */
  lemma PathCutEntries()
    ensures WellFormed(Path)
    ensures var m := SetMatchesSpec(Path, 3, []);
      Get(m, 1) == [2] && Adjacent(m, 1, 2)
  {
    PathWellFormed();
    assert Get(Path, 3) == [2] && Get(Path, 1) == [2];
    SetMatchesEntry(Path, 3, [], 1);
  }


  /** The clustered branch keeps on record only ids it had, the one it
      merges into, and fresh ones above the counter. */
  lemma ClusteredKeys(e: Engine, clusterId: nat, updated: seq<nat>)
    requires EngineValid(e) && Sorted(updated) && clusterId <= e.maxClusterId
    ensures forall id :: id in ClusteredSpec(e, clusterId, updated).0.clusterIdToCluster ==>
      id in e.clusterIdToCluster || id == clusterId || e.maxClusterId < id
  {
    var ePre, pool := ClusteredParts(e, clusterId, updated);
    ReclusterRecords(ePre, pool);
  }

  /** The clustered branch, merging into a recorded cluster, takes no id
      but those on record and fresh ones, and each donor it retires is off
      record. */
  lemma ClusteredRetires(e: Engine, cid: nat, u: seq<nat>)
    requires EngineValid(e) && Listed(e.nodeIdToClusterId, e.clusterIdToCluster) && Sorted(u)
    requires cid in e.clusterIdToCluster
    ensures var r := ClusteredSpec(e, cid, u);
      && (forall id :: id in r.0.clusterIdToCluster ==> id in e.clusterIdToCluster || e.maxClusterId < id)
      && (forall id :: id in r.1.removedClusters ==> id !in r.0.clusterIdToCluster && id <= e.maxClusterId)
  {
    var nodes, recs := e.nodeIdToClusterId, e.clusterIdToCluster;
    var r := ClusteredSpec(e, cid, u);
    var donors := ClusterIdsOf(nodes, Difference(u, recs[cid]));
    ClusteredKeys(e, cid, u);
    SurvivorNotDonor(nodes, recs, cid, u);
    ClusteredMerge(e, cid, u);
    forall id | id in r.1.removedClusters ensures id <= e.maxClusterId {
      assert id in donors;
    }
  }

  /** The merge takes no id but the survivor's and fresh ones, and each
      donor it retires is off record. */
  lemma MergeRetires(e: Engine, m: Adjacency, probe: nat, updated: seq<nat>, cid: nat)
    requires EngineValid(e) && Partitioned(e) && Sorted(updated)
    requires m == SetMatchesSpec(e.matches, probe, updated) && WellFormed(m)
    requires cid in e.clusterIdToCluster && Component(m, probe) != []
    ensures var r := ClusteredSpec(e.(matches := m), cid, Component(m, probe));
      && (forall id :: id in r.0.clusterIdToCluster ==> id in e.clusterIdToCluster || e.maxClusterId < id)
      && (forall id :: id in r.1.removedClusters ==> id !in r.0.clusterIdToCluster && id <= e.maxClusterId)
  {
    ClusteredRetires(e.(matches := m), cid, Component(m, probe));
  }

  /** Every updateMatches takes new record ids only above the counter,
      and each id it reports removed is off record, no higher than the
      counter, and held by no node. With RetiredStaysRetired this makes a
      retired id stay retired: it never comes back on record. */
  lemma UpdateMatchesRetires(e: Engine, probe: nat, updated: seq<nat>)
    requires EngineValid(e) && Partitioned(e) && Sorted(updated)
    ensures var r := UpdateMatchesSpec(e, probe, updated);
      && (forall id :: id in r.0.clusterIdToCluster ==> id in e.clusterIdToCluster || e.maxClusterId < id)
      && (forall id :: id in r.1.removedClusters ==>
            && id !in r.0.clusterIdToCluster && id <= r.0.maxClusterId
            && (forall x :: x in r.0.nodeIdToClusterId ==> r.0.nodeIdToClusterId[x] != id))
  {
    var m := SetMatchesSpec(e.matches, probe, updated);
    SetMatchesWellFormed(e.matches, probe, updated);
    var u := Component(m, probe);
    var i := FindClustered(e.nodeIdToClusterId, u);
    var r := UpdateMatchesSpec(e, probe, updated);
    assert r == UpdateClusteringSpec(e.(matches := m), probe, u);
    UpdateMatchesValid(e, probe, updated);
    UpdateMatchesPartitioned(e, probe, updated);
    if i < |u| {
      var cid := e.nodeIdToClusterId[u[i]];
      assert cid in e.clusterIdToCluster;
      MergeRetires(e, m, probe, updated, cid);
    }
    forall id, x | id in r.1.removedClusters && x in r.0.nodeIdToClusterId
      ensures r.0.nodeIdToClusterId[x] != id
    {
      assert r.0.nodeIdToClusterId[x] in r.0.clusterIdToCluster;
    }
  }

  /** An id at or below the counter that is off record stays off record
      through any updateMatches. */
  lemma RetiredStaysRetired(e: Engine, probe: nat, updated: seq<nat>, id: nat)
    requires EngineValid(e) && Partitioned(e) && Sorted(updated)
    requires id <= e.maxClusterId && id !in e.clusterIdToCluster
    ensures id !in UpdateMatchesSpec(e, probe, updated).0.clusterIdToCluster
    ensures id <= UpdateMatchesSpec(e, probe, updated).0.maxClusterId
  {
    UpdateMatchesRetires(e, probe, updated);
    UpdateMatchesValid(e, probe, updated);
  }

  /** A partitioned engine lists every assigned node in its record, so
      the tear-down lemma of the Findings module applies to every engine
      updateMatches reaches. */
  lemma PartitionedAssignedListed(e: Engine)
    requires Partitioned(e)
    ensures Findings.AssignedListed(e)
  {
  }
}
