/** The clustering engine of connectivitymatrix.h as values: its state, the
    diff it reports, and one function per step of updateMatches, init and
    reclusterNodes, each mirroring the code, with the three corrections
    that the Findings module sets out (the tear-down releases every member
    of the retired cluster; the clustered branch assigns its new nodes and
    re-clusters what the merged clusters leave outside the component). */
module ClusteringSpec {
  import opened SortedSeqs
  import opened Graph
  import opened MatchMatrix

  /** What one cluster gained and lost in an update. */
  datatype ClusterUpdate = ClusterUpdate(newMatches: seq<nat>, removedMatches: seq<nat>)

  /** The diff returned by updateMatches: per-cluster changes and the ids of
      the clusters that ceased to exist. */
  datatype ClusteringUpdate = ClusteringUpdate(
    clusterUpdates: map<nat, ClusterUpdate>,
    removedClusters: seq<nat>)

  const NoUpdate: ClusteringUpdate := ClusteringUpdate(map[], [])

  /** The whole state of a ConnectivityMatrix: the match store, node to
      cluster assignments, cluster records and the id counter. */
  datatype Engine = Engine(
    matches: Adjacency,
    nodeIdToClusterId: map<nat, nat>,
    clusterIdToCluster: map<nat, seq<nat>>,
    maxClusterId: nat)

  const EmptyEngine: Engine := Engine(map[], map[], map[], 0)

  /** The engine's standing invariant: a well-formed store, every record
      ascending, and no id in use above the counter (so a fresh id is new). */
  ghost predicate EngineValid(e: Engine) {
    && WellFormed(e.matches)
    && (forall id :: id in e.clusterIdToCluster ==>
          id <= e.maxClusterId && Sorted(e.clusterIdToCluster[id]))
    && (forall x :: x in e.nodeIdToClusterId ==> e.nodeIdToClusterId[x] <= e.maxClusterId)
  }

  function Max(a: nat, b: nat): nat {
    if a < b then b else a
  }

  /** setCluster: every listed node now maps to id; every other assignment
      stays as it was. */
  function Assign(a: map<nat, nat>, nodes: seq<nat>, id: nat): (r: map<nat, nat>)
    ensures r.Keys == a.Keys + Elems(nodes)
    ensures forall x :: x in nodes ==> r[x] == id
    ensures forall x :: x in a && x !in nodes ==> r[x] == a[x]
  {
    map x | x in a.Keys + Elems(nodes) :: if x in nodes then id else a[x]
  }

  /** Assigning one more node is a single map update. */
  lemma AssignStep(a: map<nat, nat>, nodes: seq<nat>, x: nat, id: nat)
    ensures Assign(a, nodes + [x], id) == Assign(a, nodes, id)[x := id]
  {
    var l := Assign(a, nodes + [x], id);
    var r := Assign(a, nodes, id)[x := id];
    forall y ensures (y in l <==> y in r) && (y in l ==> l[y] == r[y]) {
      assert y in nodes + [x] <==> y in nodes || y == x;
    }
  }

  /** std::find_if over a component: the position of its first node that
      already has a cluster, or its length when none has. */
  function FindClustered(a: map<nat, nat>, s: seq<nat>): (i: nat)
    ensures i <= |s|
    ensures forall k :: 0 <= k < i ==> s[k] !in a
    ensures i < |s| ==> s[i] in a
  {
    if s == [] then 0
    else if s[0] in a then 0
    else 1 + FindClustered(a, s[1..])
  }

  /** The cluster ids held by the listed nodes that have one. */
  function ClusterIdsOf(a: map<nat, nat>, nodes: seq<nat>): set<nat> {
    set x | x in nodes && x in a :: a[x]
  }

  /** createCluster: the next id, every member assigned to it, and the
      record holding the members. */
  function CreateClusterSpec(e: Engine, cluster: seq<nat>): (r: (Engine, nat))
    ensures r.1 == e.maxClusterId + 1 == r.0.maxClusterId
    ensures r.0.matches == e.matches
  {
    var id := e.maxClusterId + 1;
    (e.(nodeIdToClusterId := Assign(e.nodeIdToClusterId, cluster, id),
        clusterIdToCluster := e.clusterIdToCluster[id := cluster],
        maxClusterId := id),
     id)
  }

  /** The second loop of reclusterNodes: createCluster for each collected
      component in turn, returning the ids in creation order. */
  function CreateClusters(e: Engine, clusters: seq<seq<nat>>): (r: (Engine, seq<nat>))
    ensures |r.1| == |clusters|
    ensures r.0.matches == e.matches
    ensures r.0.maxClusterId == e.maxClusterId + |clusters|
    decreases |clusters|
  {
    if clusters == [] then (e, [])
    else
      var created := CreateClusterSpec(e, clusters[0]);
      var rest := CreateClusters(created.0, clusters[1..]);
      (rest.0, [created.1] + rest.1)
  }

  /** One createCluster off the front of the list. */
  lemma CreateClustersCons(e: Engine, clusters: seq<seq<nat>>)
    requires clusters != []
    ensures CreateClusters(e, clusters).0 == CreateClusters(CreateClusterSpec(e, clusters[0]).0, clusters[1..]).0
    ensures CreateClusters(e, clusters).1 ==
              [e.maxClusterId + 1] + CreateClusters(CreateClusterSpec(e, clusters[0]).0, clusters[1..]).1
  {
  }

  /** One more node adds its cluster id, if it has one. */
  lemma ClusterIdsStep(a: map<nat, nat>, nodes: seq<nat>, x: nat)
    ensures ClusterIdsOf(a, nodes + [x]) ==
              ClusterIdsOf(a, nodes) + (if x in a then {a[x]} else {})
  {
    assert forall y :: y in nodes + [x] <==> y in nodes || y == x;
  }

  /** The first loop of reclusterNodes, over the pool of ascending nodes: the
      last node either has no entry (its assignment is erased and it is
      dropped) or its component is collected and every pool node in it is
      dropped. Returns the assignments and the components in the order
      found. */
  ghost function SplitOff(m: Adjacency, a: map<nat, nat>, pool: seq<nat>): (r: (map<nat, nat>, seq<seq<nat>>))
    requires Sorted(pool)
    decreases |pool|
  {
    if pool == [] then (a, [])
    else
      var x := pool[|pool| - 1];
      var cluster := Component(m, x);
      if cluster == [] then
        SplitOff(m, a - {x}, pool[..|pool| - 1])
      else
        ComponentOfKey(m, x);
        assert x in Elems(cluster);
        var rest := SplitOff(m, a, Difference(pool, cluster));
        (rest.0, [cluster] + rest.1)
  }

  /** One turn of the pool loop, as the loop takes it. */
  lemma SplitOffTurn(m: Adjacency, a: map<nat, nat>, pool: seq<nat>)
    requires Sorted(pool) && pool != []
    ensures Component(m, pool[|pool| - 1]) == [] ==>
              SplitOff(m, a, pool) == SplitOff(m, a - {pool[|pool| - 1]}, pool[..|pool| - 1])
    ensures Component(m, pool[|pool| - 1]) != [] ==>
              |Difference(pool, Component(m, pool[|pool| - 1]))| < |pool| &&
              SplitOff(m, a, pool).0 == SplitOff(m, a, Difference(pool, Component(m, pool[|pool| - 1]))).0 &&
              SplitOff(m, a, pool).1 ==
                [Component(m, pool[|pool| - 1])] + SplitOff(m, a, Difference(pool, Component(m, pool[|pool| - 1]))).1
  {
    var x := pool[|pool| - 1];
    ComponentOfKey(m, x);
    if Component(m, x) != [] {
      assert x in Elems(Component(m, x));
    }
  }

  /** Appending one cluster to the collected ones, in front of the rest. */
  lemma AppendCluster(done: seq<seq<nat>>, c: seq<nat>, rest: seq<seq<nat>>)
    ensures done + ([c] + rest) == (done + [c]) + rest
  {
  }

  /** reclusterNodes: split the pool into components, then give each a fresh
      cluster. */
  ghost function ReclusterSpec(e: Engine, pool: seq<nat>): (r: (Engine, seq<nat>))
    requires Sorted(pool)
  {
    var split := SplitOff(e.matches, e.nodeIdToClusterId, pool);
    CreateClusters(e.(nodeIdToClusterId := split.0), split.1)
  }

  /** updateClusteringForRemovedProbe, corrected: probe has no entry left.
      If it had a cluster, that record is erased, every node listed in it
      and probe itself lose their assignment, and the id is reported
      removed; otherwise nothing happens. */
  function RemovedProbeSpec(e: Engine, probe: nat): (r: (Engine, ClusteringUpdate))
  {
    if probe in e.nodeIdToClusterId then
      var removedClusterId := e.nodeIdToClusterId[probe];
      var members := Elems(Get(e.clusterIdToCluster, removedClusterId));
      (e.(clusterIdToCluster := e.clusterIdToCluster - {removedClusterId},
          nodeIdToClusterId := e.nodeIdToClusterId - members - {probe}),
       ClusteringUpdate(map[], [removedClusterId]))
    else
      (e, NoUpdate)
  }

  /** updateClusteringForNewNodes: a component none of whose nodes has a
      cluster becomes a new cluster, reported as all new. */
  function NewNodesSpec(e: Engine, cluster: seq<nat>): (r: (Engine, ClusteringUpdate))
  {
    var created := CreateClusterSpec(e, cluster);
    (created.0, ClusteringUpdate(map[created.1 := ClusterUpdate(cluster, [])], []))
  }

  /** The members of the listed clusters' records that the updated
      component does not hold. */
  function Stranded(records: map<nat, seq<nat>>, ids: set<nat>, updated: seq<nat>): set<nat> {
    set id, x | id in ids && id in records && x in records[id] && x !in updated :: x
  }

  /** One more listed cluster adds its record's members outside the
      component. */
  lemma StrandedAdd(records: map<nat, seq<nat>>, ids: set<nat>, id: nat, updated: seq<nat>)
    ensures Stranded(records, ids + {id}, updated) ==
              Stranded(records, ids, updated) + (Elems(Get(records, id)) - Elems(updated))
  {
    var l := Stranded(records, ids + {id}, updated);
    var r := Stranded(records, ids, updated) + (Elems(Get(records, id)) - Elems(updated));
    forall x | x in r ensures x in l {
      if x !in Stranded(records, ids, updated) {
        assert id in records && x in records[id] && x !in updated;
      }
    }
  }

  /** The nodes the clustered branch re-clusters: whatever the surviving
      cluster and the merged clusters held outside the updated component,
      ascending. */
  ghost function ReclusterPool(e: Engine, clusterId: nat, updated: seq<nat>): (r: seq<nat>)
    requires EngineValid(e) && Sorted(updated)
    ensures Sorted(r)
    ensures forall x :: x in r ==> x !in updated
  {
    var outdated := Get(e.clusterIdToCluster, clusterId);
    var newNodes := Difference(updated, outdated);
    var r := SortedSeqOf(Stranded(e.clusterIdToCluster, ClusterIdsOf(e.nodeIdToClusterId, newNodes) + {clusterId}, updated));
    assert forall x :: x in r ==> x in Elems(r);
    r
  }

  /** updateClusteringForClusteredNodes, corrected. The surviving cluster's
      record becomes the component; the clusters of its new nodes are erased
      and reported; every node the survivor or a merged cluster held outside
      the component is re-clustered; its new nodes are assigned to it and
      reported with the dropped ones. */
  ghost function ClusteredSpec(e: Engine, clusterId: nat, updated: seq<nat>): (r: (Engine, ClusteringUpdate))
    requires EngineValid(e) && Sorted(updated)
  {
    var outdated := Get(e.clusterIdToCluster, clusterId);
    var newNodes := Difference(updated, outdated);
    var removedNodes := Difference(outdated, updated);
    var removedClusters := SortedSeqOf(ClusterIdsOf(e.nodeIdToClusterId, newNodes));
    var e1 := e.(clusterIdToCluster := e.clusterIdToCluster - Elems(removedClusters));
    var reclustered := ReclusterSpec(e1, ReclusterPool(e, clusterId, updated));
    var e2 := reclustered.0;
    var reported := ReportNew(e2.clusterIdToCluster, reclustered.1);
    var updates := reported[clusterId := ClusterUpdate(newNodes, removedNodes)];
    (e2.(nodeIdToClusterId := Assign(e2.nodeIdToClusterId, newNodes, clusterId),
         clusterIdToCluster := e2.clusterIdToCluster[clusterId := updated]),
     ClusteringUpdate(updates, removedClusters))
  }

  /** Each re-clustered id reported with its record as new matches. */
  function ReportNew(records: map<nat, seq<nat>>, ids: seq<nat>): (r: map<nat, ClusterUpdate>)
    ensures r.Keys == Elems(ids)
    ensures forall id :: id in r ==> r[id] == ClusterUpdate(Get(records, id), [])
  {
    map id | id in Elems(ids) :: ClusterUpdate(Get(records, id), [])
  }

  /** updateClustering: pick the branch by the first node of the component
      that already has a cluster. */
  ghost function UpdateClusteringSpec(e: Engine, probe: nat, cluster: seq<nat>): (r: (Engine, ClusteringUpdate))
    requires EngineValid(e) && Sorted(cluster)
  {
    var i := FindClustered(e.nodeIdToClusterId, cluster);
    if i == |cluster| then
      if cluster == [] then RemovedProbeSpec(e, probe) else NewNodesSpec(e, cluster)
    else
      ClusteredSpec(e, e.nodeIdToClusterId[cluster[i]], cluster)
  }

  /** updateMatches: update the store, recompute probe's component, and
      reconcile the clustering with it. */
  ghost function UpdateMatchesSpec(e: Engine, probe: nat, updated: seq<nat>): (r: (Engine, ClusteringUpdate))
    requires EngineValid(e) && Sorted(updated)
  {
    var m := SetMatchesSpec(e.matches, probe, updated);
    SetMatchesWellFormed(e.matches, probe, updated);
    var e1 := e.(matches := m);
    UpdateClusteringSpec(e1, probe, Component(m, probe))
  }

  /** initCluster: a non-empty list is recorded under its id, its members
      assigned to it, and its first node given the whole list as matches. */
  function InitClusterSpec(e: Engine, id: nat, cluster: seq<nat>): (r: Engine)
    requires WellFormed(e.matches) && Sorted(cluster)
    ensures WellFormed(r.matches)
    ensures r.maxClusterId == e.maxClusterId
  {
    if cluster == [] then e
    else
      SetMatchesWellFormed(e.matches, cluster[0], cluster);
      Engine(SetMatchesSpec(e.matches, cluster[0], cluster),
             Assign(e.nodeIdToClusterId, cluster, id),
             e.clusterIdToCluster[id := cluster],
             e.maxClusterId)
  }

  /** All listed clusters have ascending, duplicate-free members. */
  predicate ListsSorted(clusters: seq<(nat, seq<nat>)>) {
    forall i :: 0 <= i < |clusters| ==> Sorted(clusters[i].1)
  }

  /** The loop of init from a given state: initCluster for each pair, then
      raise the counter to the pair's id. */
  function InitFrom(e: Engine, clusters: seq<(nat, seq<nat>)>): (r: Engine)
    requires WellFormed(e.matches) && ListsSorted(clusters)
    ensures WellFormed(r.matches)
    decreases |clusters|
  {
    if clusters == [] then e
    else
      var e1 := InitClusterSpec(e, clusters[0].0, clusters[0].1);
      InitFrom(e1.(maxClusterId := Max(e1.maxClusterId, clusters[0].0)), clusters[1..])
  }

  /** init: clear, then load every pair. */
  function InitSpec(clusters: seq<(nat, seq<nat>)>): (r: Engine)
    requires ListsSorted(clusters)
  {
    InitFrom(EmptyEngine, clusters)
  }
}
