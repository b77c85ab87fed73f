# Connectivity matrix, modelled in Dafny

This project models the core of a small C++ library for incremental
clustering. The library has two header-only classes.

- `SymmetricMatchMatrix` (symmetricmatchmatrix.h) stores, for each node, the
  ascending list of nodes it matches. The relation is kept symmetric: when
  one node's list changes, the node is inserted into or erased from each
  neighbour's list, and a list that becomes empty is dropped. `getCluster`
  returns a node's connected component, in ascending order.
- `ConnectivityMatrix` (connectivitymatrix.h) keeps one cluster per connected
  component. It holds the match store, a node-to-cluster map, a
  cluster-to-members map and a counter for fresh cluster ids.
  `updateMatches` replaces one node's matches, recomputes that node's
  component, and reconciles the clusters in one of three ways:
  - it tears down the probe's cluster when the probe is left isolated;
  - it creates a new cluster when no node of the component has one;
  - otherwise it keeps the cluster of the lowest clustered node. That
    cluster absorbs the component, the other clusters met are merged into
    it, and the nodes it lost are split off into fresh clusters.
  Each call reports the change as a `ClusteringUpdate`.

The promise behind all of this is a partition of the assigned nodes:
every assigned node is listed in its cluster's record, that record is the
node's connected component, records are disjoint, a node without matches
has no cluster, and an id once retired is never on record again. It does
not promise that every node with matches has a cluster: a tear-down
releases the members of the retired cluster without re-clustering those
that still match each other.

The files:

- `sorted_seqs.dfy` (module `SortedSeqs`) holds ascending, duplicate-free
  sequences. It covers the standard-library steps the source relies on:
  `lower_bound` insertion and erasure, `set_difference`, sort plus
  `unique`, and listing a set in order.
- `graph.dfy` (module `Graph`) holds the adjacency map, well-formedness
  (sorted, no empty entries, symmetric), paths, reachability and
  components.
- `match_matrix.dfy` (module `MatchMatrix`) holds class
  `SymmetricMatchMatrix`. Its field `matches` is a `map<nat, seq<nat>>`
  that the methods reassign. Each method is proved against a value-level
  function (`SetMatchesSpec`, `AfterInsert`, `AfterRemove`, `Component`),
  and lemmas about those functions give the properties.
- `clustering_spec.dfy` (module `ClusteringSpec`) describes the whole
  engine state as a value `Engine`, with one function per step of
  `updateMatches`, `init` and `reclusterNodes`.
- `clustering_props.dfy` (module `ClusteringProperties`) proves what
  `reclusterNodes` and `createCluster` produce. It also proves that every
  step keeps the standing invariant `EngineValid`: the matches are
  well-formed, and every id on record or assigned is at most the counter.
- `connectivity_matrix.dfy` (module `Connectivity`) holds class
  `ConnectivityMatrix`. It has fields `nodeIdToClusterId`,
  `clusterIdToCluster` and `maxClusterId`, plus a `SymmetricMatchMatrix`.
  Every method ensures that its new state and its result equal the
  corresponding function of `ClusteringSpec` applied to the old state.
- `update_props.dfy` (module `UpdateProperties`) proves branch by branch
  what an `updateMatches` call does, and what `initCluster` sets up.
- `findings.dfy` (module `Findings`) models three defects of
  `connectivitymatrix.h` as written. For each it gives a concrete input
  that shows the defect, and the property the corrected behaviour has.
  The rest of the model uses the corrected behaviour.
- `partition.dfy` (module `Partition`) states the partition of the
  assigned nodes as the predicate `Partitioned` and proves that it holds
  for the empty engine and that every corrected `updateMatches` keeps it.
  From it follow disjoint records, no cluster for unmatched nodes, retired
  ids that stay retired, and that re-sending a clustered node's current
  matches changes nothing.

Node and cluster ids are `nat`. C++ `unordered_map`s are Dafny `map`s, and
`std::vector`s of ids are `seq<nat>`.

## Model

| member | source | states |
|---|---|---|
| SortedSeqs.LowerBound | symmetricmatchmatrix.h:132-135 | the position returned splits an ascending list into the entries below x and those at least x |
| SortedSeqs.InsertSorted | symmetricmatchmatrix.h:128-139 | inserting at the lower bound adds exactly x, and keeps the list ascending and duplicate-free exactly when x was absent |
| SortedSeqs.EraseSorted | symmetricmatchmatrix.h:141-156 | erasing a present x at its lower bound removes exactly x and keeps the list ascending |
| SortedSeqs.Difference | symmetricmatchmatrix.h:96-126 | set_difference of two ascending lists is ascending, holds exactly the elements of the first that are not in the second, and is strictly shorter when they share an element |
| SortedSeqs.SortUnique | connectivitymatrix.h:219-220 | sort then unique yields an ascending, duplicate-free list with the same elements |
| SortedSeqs.SortedUnique | connectivitymatrix.h:219-220 | two ascending duplicate-free lists with the same elements are equal, so a sorted result is determined by its set |
| SortedSeqs.SortedElements | connectivitymatrix.h:55-66 | listing a set of keys and sorting it yields the one ascending list of exactly those keys |
| Graph.ReachableTrans | symmetricmatchmatrix.h:57-90 | reachability composes |
| Graph.ReachableReverse | symmetricmatchmatrix.h:57-90 | in a symmetric relation, reachability goes both ways |
| Graph.ClosedSetHoldsReachable | symmetricmatchmatrix.h:57-90 | a set closed under matching that holds p holds everything reachable from p, which is why the worklist search is complete |
| Graph.ComponentOfKey | symmetricmatchmatrix.h:57-90 | a node's component is empty exactly when the node has no entry, and otherwise holds the node |
| Graph.ComponentOfMember | symmetricmatchmatrix.h:57-90 | in a symmetric relation every member of a component has that same component |
| Graph.ComponentsDisjointOrEqual | symmetricmatchmatrix.h:57-90 | two components are equal or share no node |
| MatchMatrix.DroppedHoldProbe | symmetricmatchmatrix.h:141-150 | in a well-formed store, every dropped neighbour has an ascending entry that holds probe, so erasing at the lower bound is sound |
| MatchMatrix.AfterRemoveEntry | symmetricmatchmatrix.h:141-156 | removeMatches takes probe out of each listed entry and leaves every other entry unchanged |
| MatchMatrix.AfterRemoveShape | symmetricmatchmatrix.h:141-156 | removeMatches keeps entries ascending and leaves no empty entry |
| MatchMatrix.AfterInsertEntry | symmetricmatchmatrix.h:128-139 | insertMatches adds probe to each listed entry, keeping it ascending and non-empty, and leaves every other entry unchanged |
| MatchMatrix.SetMatchesEntry | symmetricmatchmatrix.h:14-32 | after setMatches, probe's entry is the new list, each newly added neighbour gains probe, each dropped one loses it, and every other entry stays |
| MatchMatrix.SetMatchesAdjacency | symmetricmatchmatrix.h:14-32 | after setMatches, a and b match exactly when one is probe and the other is in the new list, or neither is probe and they matched before |
| MatchMatrix.SetMatchesWellFormed | symmetricmatchmatrix.h:14-32 | setMatches keeps the store sorted, free of empty entries and symmetric |
| MatchMatrix.SetMatchesFrame | symmetricmatchmatrix.h:14-32 | a node that is neither probe nor an old or new neighbour keeps its entry |
| MatchMatrix.SetMatchesIdempotent | symmetricmatchmatrix.h:14-32 | re-sending a probe's current list leaves the store unchanged |
| MatchMatrix.AfterRemoveStep | symmetricmatchmatrix.h:144-155 | one turn of the removeMatches loop is one erase on that neighbour's entry |
| MatchMatrix.AfterInsertStep | symmetricmatchmatrix.h:131-138 | one turn of the insertMatches loop is one insertion on that neighbour's entry |
| MatchMatrix.SymmetricMatchMatrix.constructor | symmetricmatchmatrix.h:158 | a new store is empty and well-formed |
| MatchMatrix.SymmetricMatchMatrix.SetMatches | symmetricmatchmatrix.h:14-32 | the store becomes SetMatchesSpec of the old store and stays well-formed |
| MatchMatrix.SymmetricMatchMatrix.GetMatches | symmetricmatchmatrix.h:34-42 | the result is ascending, is empty exactly when probe has no entry, and holds exactly probe's matches |
| MatchMatrix.SymmetricMatchMatrix.GetProbes | symmetricmatchmatrix.h:44-55 | the result is the keys of the store, ascending |
| MatchMatrix.SymmetricMatchMatrix.GetCluster | symmetricmatchmatrix.h:57-90 | the result is ascending, holds exactly the nodes with an entry reachable from probe, holds probe when it has an entry, and is empty otherwise |
| MatchMatrix.SymmetricMatchMatrix.Clear | symmetricmatchmatrix.h:92-94 | the store becomes empty |
| MatchMatrix.SymmetricMatchMatrix.RemoveMatches | symmetricmatchmatrix.h:141-156 | the store becomes AfterRemove of the old one |
| MatchMatrix.SymmetricMatchMatrix.InsertMatches | symmetricmatchmatrix.h:128-139 | the store becomes AfterInsert of the old one |
| ClusteringSpec.Assign | connectivitymatrix.h:231-235 | setCluster maps every listed node to the id and keeps every other assignment |
| ClusteringSpec.AssignStep | connectivitymatrix.h:232-234 | one turn of the setCluster loop is one map update |
| ClusteringSpec.FindClustered | connectivitymatrix.h:96-101 | find_if stops at the first node that has a cluster, or at the end when none has |
| ClusteringSpec.CreateClusterSpec | connectivitymatrix.h:266-277 | createCluster uses the id one above the counter and raises the counter to it |
| ClusteringSpec.CreateClusters | connectivitymatrix.h:256-263 | one id per collected cluster, with the counter raised by their number |
| ClusteringSpec.ReportNew | connectivitymatrix.h:159-162 | the report holds exactly the re-clustered ids, each with its record as new matches and nothing removed |
| ClusteringSpec.StrandedAdd | connectivitymatrix.h:150-159 | the nodes that one more cluster leaves outside the updated list are added to those the others leave |
| ClusteringSpec.ReclusterPool | connectivitymatrix.h:150-159 | corrected: the pool for reclusterNodes is ascending and avoids the updated list |
| ClusteringSpec.InitClusterSpec | connectivitymatrix.h:85-92 | initCluster keeps the store well-formed and leaves the counter alone |
| ClusteringSpec.InitFrom | connectivitymatrix.h:32-39 | the init loop keeps the store well-formed |
| ClusteringProperties.SplitOffAssignments | connectivitymatrix.h:241-254 | the pool loop drops the assignment of exactly the pool nodes without an entry and changes no other |
| ClusteringProperties.SplitOffComponents | connectivitymatrix.h:241-254 | every cluster the pool loop collects is the non-empty component of a pool node that has an entry |
| ClusteringProperties.SplitOffCovers | connectivitymatrix.h:241-254 | every pool node that has an entry lands in a collected cluster |
| ClusteringProperties.SplitOffDisjoint | connectivitymatrix.h:241-254 | the collected clusters are pairwise disjoint |
| ClusteringProperties.ComponentsApart | symmetricmatchmatrix.h:57-90 | a node outside x's component has a component disjoint from x's |
| ClusteringProperties.CreateClustersRecords | connectivitymatrix.h:256-273 | the i-th collected cluster is recorded under counter+1+i, and the records kept before stay |
| ClusteringProperties.CreateClustersAssignments | connectivitymatrix.h:256-273 | members of the i-th disjoint cluster map to counter+1+i, and nodes in none keep their assignment |
| ClusteringProperties.ReclusterRecords | connectivitymatrix.h:237-264 | reclusterNodes returns consecutive fresh ids above the counter, records the collected clusters under them in order, and keeps every earlier record |
| ClusteringProperties.ReclusterClusters | connectivitymatrix.h:237-264 | the new clusters are components of nodes that left, pairwise disjoint, and hold every such node that still has matches |
| ClusteringProperties.ReclusterAssigns | connectivitymatrix.h:237-264 | each member of a new cluster is assigned that cluster's id |
| ClusteringProperties.ReclusterKeeps | connectivitymatrix.h:237-264 | pool nodes without matches lose their assignment; other nodes outside the new clusters keep theirs |
| ClusteringProperties.CreateClustersValid | connectivitymatrix.h:266-277 | creating clusters with ascending members keeps the standing invariant |
| ClusteringProperties.ReclusterValid | connectivitymatrix.h:237-264 | reclusterNodes keeps the standing invariant and never lowers the counter |
| ClusteringProperties.ClusteredValid | connectivitymatrix.h:147-172 | the merge-and-split branch keeps the standing invariant, the store and a non-decreasing counter |
| ClusteringProperties.UpdateClusteringValid | connectivitymatrix.h:94-110 | every branch of updateClustering keeps the standing invariant and leaves the store alone |
| ClusteringProperties.UpdateMatchesValid | connectivitymatrix.h:42-49 | updateMatches keeps the standing invariant, changes the store exactly as setMatches does, and never lowers the counter |
| ClusteringProperties.InitFromValid | connectivitymatrix.h:32-39 | the init loop keeps the standing invariant and leaves the counter at least every listed id |
| ClusteringProperties.InitValid | connectivitymatrix.h:27-40 | init from any list of ascending clusters yields a valid state whose counter is at least every listed id |
| Connectivity.ConnectivityMatrix.constructor | connectivitymatrix.h:23-25 | a new matrix is empty, with the counter at 0 |
| Connectivity.ConnectivityMatrix.Init | connectivitymatrix.h:27-40 | the state becomes InitSpec of the list and is valid |
| Connectivity.ConnectivityMatrix.UpdateMatches | connectivitymatrix.h:42-49 | corrected: the new state and the report are UpdateMatchesSpec of the old state, and validity is kept |
| Connectivity.ConnectivityMatrix.GetProbes | connectivitymatrix.h:51-53 | the nodes with matches, ascending |
| Connectivity.ConnectivityMatrix.GetClusters | connectivitymatrix.h:55-66 | the ids on record, ascending |
| Connectivity.ConnectivityMatrix.GetCluster | connectivitymatrix.h:68-76 | the record of a known id, and the empty list for an unknown one |
| Connectivity.ConnectivityMatrix.Clear | connectivitymatrix.h:78-83 | the state becomes the empty one, with the counter at 0 |
| Connectivity.ConnectivityMatrix.InitCluster | connectivitymatrix.h:85-92 | the state becomes InitClusterSpec of the old one |
| Connectivity.ConnectivityMatrix.UpdateClustering | connectivitymatrix.h:94-110 | corrected: the state and report follow UpdateClusteringSpec, which picks the branch by the first clustered node |
| Connectivity.ConnectivityMatrix.UpdateClusteringForUnclusteredNodes | connectivitymatrix.h:112-119 | an empty component goes to the tear-down and a non-empty one to a new cluster |
| Connectivity.ConnectivityMatrix.UpdateClusteringForRemovedProbe | connectivitymatrix.h:121-134 | the state and report follow RemovedProbeSpec, in its corrected form |
| Connectivity.ConnectivityMatrix.UpdateClusteringForNewNodes | connectivitymatrix.h:136-145 | the state and report follow NewNodesSpec |
| Connectivity.ConnectivityMatrix.UpdateClusteringForClusteredNodes | connectivitymatrix.h:147-172 | the state and report follow ClusteredSpec, in its corrected form |
| Connectivity.ConnectivityMatrix.ReportNewClusters | connectivitymatrix.h:159-162 | the report entries built for the re-clustered ids equal ReportNew |
| Connectivity.ConnectivityMatrix.GetUniqueClusters | connectivitymatrix.h:206-223 | the distinct clusters of the listed nodes that have one, ascending |
| Connectivity.ConnectivityMatrix.StrandedNodes | connectivitymatrix.h:150-159 | corrected: the nodes handed to reclusterNodes are, ascending, exactly the members of the survivor's and the merged clusters' records outside the updated list |
| Connectivity.ConnectivityMatrix.EraseClusters | connectivitymatrix.h:225-229 | exactly the listed records are erased, and nothing else changes |
| Connectivity.ConnectivityMatrix.SetCluster | connectivitymatrix.h:231-235 | the assignments become Assign of the old ones, and nothing else changes |
| Connectivity.ConnectivityMatrix.ReclusterNodes | connectivitymatrix.h:237-264 | the state and the returned ids are ReclusterSpec of the old state and pool |
| Connectivity.ConnectivityMatrix.CreateNewClusters | connectivitymatrix.h:256-263 | the state and ids are CreateClusters of the collected clusters |
| Connectivity.ConnectivityMatrix.CreateCluster | connectivitymatrix.h:266-273 | the state and id are CreateClusterSpec |
| Connectivity.ConnectivityMatrix.CreateClusterId | connectivitymatrix.h:275-277 | the counter goes up by one and the new value is returned, with nothing else changed |
| UpdateProperties.FindClusteredLowest | connectivitymatrix.h:96-101 | no node of the component has a cluster exactly when the search reaches the end; otherwise it stops at the lowest clustered node |
| UpdateProperties.EmptyListTearsDown | connectivitymatrix.h:121-134 | corrected: emptying a probe's list leaves it no entry. If it had a cluster, that record is erased, its members and the probe are released, and the id is reported removed; otherwise only the store changes and the report is empty |
| UpdateProperties.NewClusterFacts | connectivitymatrix.h:136-145 | an unclustered component gets id counter+1, is recorded and assigned under it, and is reported as all new; earlier records and assignments stay |
| UpdateProperties.ClusteredReport | connectivitymatrix.h:147-172 | the surviving cluster is reported with new matches = updated minus outdated and removed matches = outdated minus updated, both ascending, and its record becomes the component |
| UpdateProperties.ClusteredMerge | connectivitymatrix.h:150-157 | the removed clusters are the distinct clusters of the new nodes, ascending; each one other than the survivor loses its record; every other record stays |
| UpdateProperties.ReclusterIds | connectivitymatrix.h:256-263 | the re-clustered ids are consecutive above the counter, end at the new counter, and each is on record |
| UpdateProperties.ReportedIds | connectivitymatrix.h:259-261 | the ids returned by reclusterNodes are exactly the fresh ones above the old counter |
| UpdateProperties.ClusteredSplitReport | connectivitymatrix.h:159-162 | besides the survivor, the report holds exactly the fresh ids, each with its record as new matches |
| UpdateProperties.ClusteredSplitComponents | connectivitymatrix.h:237-264 | each split-off cluster is the non-empty component of a re-clustered node (one the survivor or a merged cluster held outside the updated list) that still has matches |
| UpdateProperties.ClusteredSplitClusters | connectivitymatrix.h:237-264 | the split-off clusters are pairwise disjoint and hold every re-clustered node that still has matches |
| UpdateProperties.ClusteredSplitAssigns | connectivitymatrix.h:237-264 | each member of a split-off cluster that is outside the updated list maps to the cluster's new id |
| UpdateProperties.ReclusterById | connectivitymatrix.h:237-264 | the clusters under reclusterNodes' fresh ids cover the pool nodes that have matches, are pairwise disjoint, and their members map to their ids |
| UpdateProperties.ReclusterComponentsById | connectivitymatrix.h:237-264 | each fresh id of reclusterNodes is on record with the non-empty component of a pool node that has matches |
| UpdateProperties.ClusterRecorded | connectivitymatrix.h:94-110 | updateClustering records a list holding the probe under an id it reports, in every branch |
| UpdateProperties.ClusteredAssignsNewNodes | connectivitymatrix.h:164-168 | every node reported as joining the survivor is assigned to it |
| UpdateProperties.ClusteredSplitApart | connectivitymatrix.h:237-264 | when the updated list is a component, no split-off cluster shares a node with it |
| UpdateProperties.ComponentRecorded | connectivitymatrix.h:42-49 | after a non-empty list, the probe's component is on record under some id, holds the probe, and is in the report |
| UpdateProperties.InitClusterFacts | connectivitymatrix.h:85-92 | a non-empty list is recorded under its id, its members map to the id, and its first member matches every member both ways, so all share one component |
| Findings.RemovedProbeAsWritten | connectivitymatrix.h:121-134 | as written, the tear-down reports and erases the record as corrected, but releases only the probe |
| Findings.ClusteredAsWrittenParts | connectivitymatrix.h:147-172 | as written, the merge-and-split branch records and reports in the corrected branch's shape, with reclusterNodes run on the survivor's dropped nodes only, and no assignment added for the survivor |
| Findings.ThirdJoinsChain | symmetricmatchmatrix.h:57-90 | matching node 3 with node 2 of the chain 1-2 makes the component of 3 the list [1, 2, 3] |
| Findings.NewNodeLeftUnassigned | connectivitymatrix.h:164-168 | as written: from chain 1-2 as cluster 1, updateMatches(3, [2]) records [1, 2, 3] as cluster 1 and reports 3 as joining it, yet node 3 has no cluster |
| Findings.NewNodeAssigned | connectivitymatrix.h:164-168 | corrected: the same call assigns node 3 to cluster 1 |
| Findings.PartnerKeepsRetiredId | connectivitymatrix.h:129-130 | as written: from chain 1-2 as cluster 1, updateMatches(2, []) retires cluster 1, yet node 1 still maps to it |
| Findings.TeardownRetiresId | connectivitymatrix.h:121-134 | corrected: when every assigned node is listed in its record, as on every partitioned state (Partition.PartitionedAssignedListed), the tear-down leaves no node mapped to the retired id and keeps that property |
| Findings.ChainFullyReleased | connectivitymatrix.h:121-134 | corrected: the same call leaves no record and no assignment |
| Findings.ClusteredAsWrittenValid | connectivitymatrix.h:147-172 | as written, the merge-and-split branch still keeps the standing invariant, the store and a non-decreasing counter |
| Findings.UpdateClusteringAsWrittenValid | connectivitymatrix.h:94-110 | as written, every branch of updateClustering keeps the standing invariant and leaves the store alone |
| Findings.UpdateMatchesAsWrittenValid | connectivitymatrix.h:42-49 | as written, updateMatches keeps the standing invariant, changes the store exactly as setMatches does, and never lowers the counter |
| Findings.PathComponent | symmetricmatchmatrix.h:57-90 | in the path 1-2-3 the component of 3 is [1, 2, 3] |
| Findings.ThreeComponent | symmetricmatchmatrix.h:57-90 | when all matches stay among nodes 1, 2 and 3 and node 3 reaches all three, its component is [1, 2, 3] |
| Findings.RewiredAdjacency | symmetricmatchmatrix.h:14-32 | from the pairs 1-2 and 3-4, setMatches(3, [1]) leaves exactly the edges 1-2 and 1-3 |
| Findings.PairsAdjacency | symmetricmatchmatrix.h:14-32 | away from node 3, the pairs hold only the edge 1-2 |
| Findings.RewiredDropsFour | symmetricmatchmatrix.h:146-154 | the same setMatches empties node 4's list, so node 4 has no entry |
| Findings.RewiredComponent | symmetricmatchmatrix.h:57-90 | after it the component of 3 is [1, 2, 3] |
| Findings.StarComponent | symmetricmatchmatrix.h:57-90 | in the star with centre 1 and leaves 2 and 3 the component of 3 is [1, 2, 3] |
| Findings.MergeInputsOfPairs | connectivitymatrix.h:150-153 | on that input node 3 is the only new node, the survivor drops nothing, and cluster 2 is the only merged one |
| Findings.DonorMemberKeepsRetiredId | connectivitymatrix.h:150-159 | as written: from pairs 1-2 and 3-4 as clusters 1 and 2, updateMatches(3, [1]) retires cluster 2, yet node 4, left with no matches, still maps to it |
| Findings.PairsStranded | connectivitymatrix.h:150-159 | on that input clusters 1 and 2 leave only node 4 outside the new component |
| Findings.StrandedReleased | connectivitymatrix.h:150-168 | corrected: a node without matches that the merge leaves outside the component loses its cluster, every new node joins the survivor, and every merged cluster other than the survivor is off record |
| Findings.DonorMemberReleased | connectivitymatrix.h:150-168 | corrected: the same call retires cluster 2, assigns node 3 to cluster 1 and leaves node 4 without a cluster |
| Partition.PartitionFacts | connectivitymatrix.h:94-110 | on a partitioned state an assigned node has matches, is listed in its cluster's record and that record is its component; a node without matches has no cluster; two records share no node |
| Partition.PathKept | symmetricmatchmatrix.h:57-90 | a path that starts in a set closed under matching, whose entries did not change, is still a path |
| Partition.ComponentClosed | symmetricmatchmatrix.h:57-90 | a component is closed under matching |
| Partition.EntriesKept | symmetricmatchmatrix.h:14-32 | setMatches leaves the entries of a component that holds neither the probe nor any of its new matches unchanged |
| Partition.SameEntriesSameComponent | symmetricmatchmatrix.h:57-90 | a component whose entries are unchanged is the same component |
| Partition.ComponentKept | symmetricmatchmatrix.h:14-32 | setMatches leaves a component alone when neither the probe nor its new matches are in it |
| Partition.UpdatedInComponent | symmetricmatchmatrix.h:14-32 | after setMatches the probe has an entry exactly when its list is non-empty, and then its component holds it and its new matches |
| Partition.RecordKept | connectivitymatrix.h:42-49 | a component apart from the probe's new component and without the probe is unchanged by setMatches |
| Partition.KeptRecord | connectivitymatrix.h:42-49 | a record that was a component and lies apart from the probe's new component is still the component of each member |
| Partition.KeptRecords | connectivitymatrix.h:42-49 | the same for every such record at once |
| Partition.InNoneByIdClusters | connectivitymatrix.h:256-263 | a node under none of the fresh ids is in none of the collected clusters |
| Partition.ReclusterFacts | connectivitymatrix.h:237-264 | reclusterNodes, read by id: old records stay, each fresh id holds a pool node's component with its members assigned, every pool node with matches is placed, every one without is released, and every other node keeps its cluster |
| Partition.MembersShareComponent | symmetricmatchmatrix.h:57-90 | each member of a component has that same component |
| Partition.ListedRelease | connectivitymatrix.h:121-134 | erasing a record together with its members' and the probe's assignments keeps assignments and records pointing at each other |
| Partition.TeardownPartitioned | connectivitymatrix.h:121-134 | corrected: the tear-down keeps the partition |
| Partition.ListedAdd | connectivitymatrix.h:136-145 | recording a non-empty list of unassigned nodes under a new id and assigning them keeps assignments and records pointing at each other |
| Partition.UnassignedApart | connectivitymatrix.h:136-145 | unassigned nodes are in no record |
| Partition.NewRecordsAreComponents | connectivitymatrix.h:136-145 | recording the probe's new component of unassigned nodes keeps every record a component |
| Partition.NewClusterPartitioned | connectivitymatrix.h:136-145 | a new cluster for an unclustered component keeps the partition |
| Partition.KeptOutside | connectivitymatrix.h:150-157 | a record neither of the survivor nor merged shares no node with the new component |
| Partition.MergeAssignedListed | connectivitymatrix.h:147-172 | corrected: after the merge every assigned node is listed in its cluster's record |
| Partition.StrandedOwner | connectivitymatrix.h:147-172 | a node reclusterNodes left alone keeps a cluster that still lists it after the merge |
| Partition.MergeNoneEmpty | connectivitymatrix.h:147-172 | after the merge no record is empty |
| Partition.MergeMembersAssigned | connectivitymatrix.h:147-172 | corrected: after the merge every member of a record is assigned to it |
| Partition.ListedMerge | connectivitymatrix.h:147-172 | corrected: after the merge assignments and records point at each other |
| Partition.FreshApart | connectivitymatrix.h:237-264 | a component grown from a re-clustered node avoids the new component and every record that is kept |
| Partition.RecordsMerge | connectivitymatrix.h:147-172 | after the merge every record is the component of each of its members |
| Partition.KeptComponents | connectivitymatrix.h:147-172 | records neither of the survivor nor merged are still components after setMatches |
| Partition.StrandedListed | connectivitymatrix.h:150-159 | on listed records, the nodes that some clusters leave outside a list are exactly the assigned nodes outside it whose cluster is among them |
| Partition.MergeIntoPartitioned | connectivitymatrix.h:147-172 | corrected: merging the probe's new component into a recorded cluster keeps the partition |
| Partition.EmptyPartitioned | connectivitymatrix.h:23-25 | the empty engine is partitioned |
| Partition.UpdateMatchesPartitioned | connectivitymatrix.h:42-49 | corrected: every updateMatches keeps the partition |
| Partition.MergeRetires | connectivitymatrix.h:150-157 | the merge puts on record only the survivor and fresh ids, and every id it reports removed is off record and at most the counter |
| Partition.UpdateMatchesRetires | connectivitymatrix.h:42-49 | corrected: updateMatches puts on record only old ids and ids above the counter; every id it reports removed is off record, at most the new counter, and held by no node |
| Partition.RetiredStaysRetired | connectivitymatrix.h:42-49 | an id at or below the counter that is off record stays off record, and at or below the counter, through any updateMatches |
| Partition.PartitionedAssignedListed | connectivitymatrix.h:121-134 | a partitioned state lists every assigned node in its cluster's record |
| Partition.UpdateMatchesIdempotent | connectivitymatrix.h:42-49 | on a partitioned state, re-sending a node's current matches, when the node has a cluster or no matches, leaves the state unchanged, retires no cluster and reports only empty changes |
| UpdateProperties.ClusteredUnchanged | connectivitymatrix.h:147-172 | when the survivor's record already is the component, the clustered branch leaves the state unchanged and reports one empty change for the survivor |
| Partition.MatchedButUnassigned | connectivitymatrix.h:121-134 | from that state, `updateMatches(3, {})` retires the cluster and leaves nodes 1 and 2 matched with each other but unassigned, and the result is still partitioned |

## Left out

- The C++ template parameter of `SymmetricMatchMatrix` is fixed to `nat`, and `ClusterId`/`NodeId` (`size_t`) are `nat`.
- Connectivity.ConnectivityMatrix.CreateClusterId: does not model `size_t` wrap-around of `++maxClusterId`, which needs 2^64 clusters.
- The `assert`s on sorted, duplicate-free input in `setMatches` become `requires Sorted(...)` on the callers.
- `getCluster` collects an `unordered_set` and then sorts it. The model collects into a Dafny set and returns its one ascending listing, so iteration order of the hash containers does not show anywhere.
- `getClusters` sorts the keys of an `unordered_map`. The model lists the key set in ascending order directly.
- References returned by `getMatches` and `getCluster` are modelled as copies of the value.
- One path of `setMatches` is undefined behaviour in C++: a probe that drops itself from its own list when that erase empties its own entry. symmetricmatchmatrix.h:152-153 then erases the entry that the reference taken at line 22 still names, and lines 25 and 30 use that reference. The model gives this case value semantics: the last write to the entry wins. Every other self-drop is well defined, and the model follows the source there by computing the additions against the probe's entry after the removal.
- In the merge, the removed clusters are all distinct clusters of the new nodes; the code does not exclude the surviving id, and neither does the model. Were the survivor among them, its reference would dangle once `eraseClusters` runs; the model gives that case value semantics. On a partitioned state it cannot happen: Partition.MergeRetires proves every removed id is off record afterwards, while the survivor is on record.
- `reclusterNodes` is two methods here: the pool loop (`ReclusterNodes`) and the id-allocating loop (`CreateNewClusters`), with the same effect in the same order.
- Connectivity.ConnectivityMatrix.UpdateClusteringForRemovedProbe: models the corrected tear-down described under Findings (every member of the retired cluster is released), not line 130 as written; the as-written form is Findings.RemovedProbeAsWritten.
- Connectivity.ConnectivityMatrix.UpdateClusteringForClusteredNodes: models the corrected merge described under Findings (new nodes are assigned, and the members the merged clusters leave outside the component are re-clustered too), not lines 150-168 as written; the as-written form is Findings.ClusteredAsWritten.
- Connectivity.ConnectivityMatrix.UpdateMatches: follows the corrected composition, not lines 42-49 as written; the as-written composition is Findings.UpdateMatchesAsWritten, and Findings.UpdateMatchesAsWrittenValid proves it keeps the standing invariant.
- Connectivity.ConnectivityMatrix.UpdateClustering: dispatches to the corrected branches; the as-written dispatch is Findings.UpdateClusteringAsWritten.
- UpdateProperties.EmptyListTearsDown: states the corrected tear-down, in which every member is released; line 130 releases only the probe.
- Partition.UpdateMatchesPartitioned: the partition is proved for states reached from the empty engine by updateMatches. `init` and `initCluster` take caller-supplied clusters that need not be components or disjoint, so states they build are not covered.
- Partition.TeardownPartitioned: the tear-down, in the source and in the corrected model, does not re-cluster the rest of the torn-down component, so nodes that still match each other can end without a cluster (Partition.MatchedButUnassigned). The partition is a promise about assigned nodes only.
- Partition.UpdateMatchesIdempotent: requires the probe to have a cluster when it has matches. After a tear-down like the one above, `updateMatches(1, {2})` re-sends node 1's current list yet opens a fresh cluster for nodes 1 and 2, so the unconditional form does not hold.
- The benchmark driver (bench.cpp) and all I/O are not part of this model.

## Findings

| source | as written | input that shows it | evidently intended | confidence | as-written member | corrected member |
|---|---|---|---|---|---|---|
| connectivitymatrix.h:164-168 | `newNodes` is swapped into the report before `setCluster(newNodes, clusterId)`, so `setCluster` receives an empty vector. Nodes joining an existing cluster are never assigned, and nodes of merged clusters keep a retired id | chain 1-2 on record as cluster 1; `updateMatches(3, {2})` | every new node of the surviving cluster maps to that cluster, as the report says | high; not executed | Findings.NewNodeLeftUnassigned | UpdateProperties.ClusteredAssignsNewNodes |
| connectivitymatrix.h:129-130 | the tear-down erases the retired cluster's record but only the probe's own assignment | chain 1-2 on record as cluster 1; `updateMatches(2, {})` | every former member of the retired cluster loses its assignment, so no node maps to a retired id | high; not executed | Findings.PartnerKeepsRetiredId | Findings.TeardownRetiresId |
| connectivitymatrix.h:150-159 | every merged cluster's record is erased, but only the survivor's `removedNodes` go to `reclusterNodes`; members of a merged cluster outside the new component are neither re-clustered nor released | pairs 1-2 and 3-4 on record as clusters 1 and 2; `updateMatches(3, {1})` | the members the survivor and the merged clusters leave outside the component are re-clustered, so each keeps a cluster equal to its component or, without matches, none | high; not executed | Findings.DonorMemberKeepsRetiredId | Partition.UpdateMatchesPartitioned |
