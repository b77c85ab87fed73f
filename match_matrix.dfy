/** The symmetric adjacency store (symmetricmatchmatrix.h): a table from a
    node id to its ascending, duplicate-free neighbour ids, kept symmetric by
    setMatches, and a traversal that recovers a node's connected component. */
module MatchMatrix {
  import opened SortedSeqs
  import opened Graph

  /** The table after removeMatches(removed, probe): probe erased from the list
      of each listed node, and an entry left empty dropped. */
  function AfterRemove(m: Adjacency, removed: seq<nat>, probe: nat): Adjacency
    requires forall q :: q in removed ==> q in m && Sorted(m[q]) && probe in m[q]
  {
    map q | q in m && (q in removed ==> EraseSorted(m[q], probe) != []) ::
      if q in removed then EraseSorted(m[q], probe) else m[q]
  }

  /** The table after insertMatches(added, probe): probe inserted at its lower
      bound into the list of each listed node, the entry created if missing. */
  function AfterInsert(m: Adjacency, added: seq<nat>, probe: nat): Adjacency
    requires EntriesSorted(m)
  {
    map q | q in m.Keys + Elems(added) ::
      if q in added then InsertSorted(Get(m, q), probe) else m[q]
  }

  /** The table after setMatches(probe, updated): the dropped neighbours lose
      probe, then the added ones gain it, then probe's own entry is replaced by
      updated, or erased when updated is empty. The added neighbours are those
      missing from probe's entry as it stands after the removals. */
  function SetMatchesSpec(m: Adjacency, probe: nat, updated: seq<nat>): Adjacency
    requires WellFormed(m) && Sorted(updated)
  {
    var outdated := Get(m, probe);
    var dropped := Difference(outdated, updated);
    DroppedHoldProbe(m, probe, updated);
    var m1 := AfterRemove(m, dropped, probe);
    AfterRemoveShape(m, dropped, probe);
    var m2 := AfterInsert(m1, Difference(updated, Get(m1, probe)), probe);
    if updated == [] then m2 - {probe} else m2[probe := updated]
  }

  /** Symmetry puts probe in the list of every neighbour it drops, which is
      what the erase at lower_bound relies on. */
  lemma DroppedHoldProbe(m: Adjacency, probe: nat, updated: seq<nat>)
    requires WellFormed(m) && Sorted(updated)
    ensures forall q :: q in Difference(Get(m, probe), updated) ==>
              q in m && Sorted(m[q]) && probe in m[q]
  {
    forall q | q in Difference(Get(m, probe), updated)
      ensures q in m && Sorted(m[q]) && probe in m[q]
    {
      assert q in Elems(Difference(Get(m, probe), updated));
      assert Adjacent(m, probe, q);
    }
  }

  /** What removeMatches does to one entry. */
  lemma AfterRemoveEntry(m: Adjacency, removed: seq<nat>, probe: nat, q: nat)
    requires forall x :: x in removed ==> x in m && Sorted(m[x]) && probe in m[x]
    ensures q in removed ==> Elems(Get(AfterRemove(m, removed, probe), q)) == Elems(m[q]) - {probe}
    ensures q !in removed ==> Get(AfterRemove(m, removed, probe), q) == Get(m, q)
  {
  }

  /** removeMatches keeps every list sorted and keeps no empty list. */
  lemma AfterRemoveShape(m: Adjacency, removed: seq<nat>, probe: nat)
    requires forall x :: x in removed ==> x in m && Sorted(m[x]) && probe in m[x]
    requires EntriesSorted(m) && NoEmptyEntries(m)
    ensures EntriesSorted(AfterRemove(m, removed, probe))
    ensures NoEmptyEntries(AfterRemove(m, removed, probe))
  {
  }

  /** What insertMatches does to one entry. */
  lemma AfterInsertEntry(m: Adjacency, added: seq<nat>, probe: nat, q: nat)
    requires EntriesSorted(m)
    ensures q in added ==> Elems(Get(AfterInsert(m, added, probe), q)) == Elems(Get(m, q)) + {probe}
    ensures q in added && probe !in Get(m, q) ==> Sorted(Get(AfterInsert(m, added, probe), q))
    ensures q in added ==> Get(AfterInsert(m, added, probe), q) != []
    ensures q !in added ==> Get(AfterInsert(m, added, probe), q) == Get(m, q)
  {
  }

  /** One entry after setMatches(p, updated): p's own entry is updated; a node
      newly listed gains p, a node no longer listed loses p, and every other
      entry is left exactly as it was. Every entry that remains is sorted and
      non-empty. */
  lemma SetMatchesEntry(m: Adjacency, p: nat, updated: seq<nat>, q: nat)
    requires WellFormed(m) && Sorted(updated)
    ensures q == p ==> Get(SetMatchesSpec(m, p, updated), q) == updated
    ensures q != p && q in updated && q !in Get(m, p) ==>
              Elems(Get(SetMatchesSpec(m, p, updated), q)) == Elems(Get(m, q)) + {p}
    ensures q != p && q !in updated && q in Get(m, p) ==>
              Elems(Get(SetMatchesSpec(m, p, updated), q)) == Elems(Get(m, q)) - {p}
    ensures q != p && (q in updated <==> q in Get(m, p)) ==>
              Get(SetMatchesSpec(m, p, updated), q) == Get(m, q)
    ensures q in SetMatchesSpec(m, p, updated) ==>
              Sorted(SetMatchesSpec(m, p, updated)[q]) && SetMatchesSpec(m, p, updated)[q] != []
  {
    var outdated := Get(m, p);
    var dropped := Difference(outdated, updated);
    DroppedHoldProbe(m, p, updated);
    var m1 := AfterRemove(m, dropped, p);
    AfterRemoveShape(m, dropped, p);
    var added := Difference(updated, Get(m1, p));
    var m2 := AfterInsert(m1, added, p);
    var r := SetMatchesSpec(m, p, updated);
    assert r == if updated == [] then m2 - {p} else m2[p := updated];
    if q != p {
      assert Get(r, q) == Get(m2, q);
      // after the removals, probe's entry lists q exactly when it did before
      AfterRemoveEntry(m, dropped, p, p);
      assert q in Get(m1, p) <==> q in outdated by {
        assert q in Elems(Get(m1, p)) <==> q in Elems(outdated);
      }
      assert q in dropped <==> q in outdated && q !in updated by {
        assert q in Elems(dropped) <==> q in Elems(outdated) && q !in Elems(updated);
      }
      assert q in added <==> q in updated && q !in outdated by {
        assert q in Elems(added) <==> q in Elems(updated) && q !in Elems(Get(m1, p));
      }
      AfterRemoveEntry(m, dropped, p, q);
      AfterInsertEntry(m1, added, p, q);
      if q in added {
        // q was not a neighbour, so by symmetry q's list does not hold p
        assert p !in Get(m, q) by {
          assert Adjacent(m, q, p) ==> Adjacent(m, p, q);
        }
      }
    }
  }

  /** The match relation after setMatches(p, updated) is the old one with p's
      matches replaced by updated: p matches b iff b is in updated, a matches p
      iff a is in updated, and every other pair is unchanged. */
  lemma SetMatchesAdjacency(m: Adjacency, p: nat, updated: seq<nat>, a: nat, b: nat)
    requires WellFormed(m) && Sorted(updated)
    ensures Adjacent(SetMatchesSpec(m, p, updated), a, b) <==>
              if a == p then b in updated
              else if b == p then a in updated
              else Adjacent(m, a, b)
  {
    var r := SetMatchesSpec(m, p, updated);
    SetMatchesEntry(m, p, updated, a);
    assert Adjacent(r, a, b) <==> b in Elems(Get(r, a));
    assert Adjacent(m, a, b) <==> b in Elems(Get(m, a));
    if a != p && b == p {
      // by symmetry, p is in a's list exactly when a is in p's
      assert Adjacent(m, a, p) <==> Adjacent(m, p, a);
      assert a in Get(m, p) <==> Adjacent(m, p, a);
    }
  }

  /** setMatches keeps the store's invariant: lists sorted and duplicate-free,
      no empty list, relation symmetric. */
  lemma SetMatchesWellFormed(m: Adjacency, p: nat, updated: seq<nat>)
    requires WellFormed(m) && Sorted(updated)
    ensures WellFormed(SetMatchesSpec(m, p, updated))
  {
    var r := SetMatchesSpec(m, p, updated);
    forall q | q in r ensures Sorted(r[q]) && r[q] != [] {
      SetMatchesEntry(m, p, updated, q);
    }
    forall a, b | Adjacent(r, a, b) ensures Adjacent(r, b, a) {
      SetMatchesAdjacency(m, p, updated, a, b);
      SetMatchesAdjacency(m, p, updated, b, a);
    }
  }

  /** setMatches touches only probe's entry and the entries of nodes in the
      symmetric difference of its old and new lists. */
  lemma SetMatchesFrame(m: Adjacency, p: nat, updated: seq<nat>, q: nat)
    requires WellFormed(m) && Sorted(updated)
    requires q != p && q !in updated && q !in Get(m, p)
    ensures q in SetMatchesSpec(m, p, updated) <==> q in m
    ensures q in m ==> SetMatchesSpec(m, p, updated)[q] == m[q]
  {
    SetMatchesEntry(m, p, updated, q);
    var r := SetMatchesSpec(m, p, updated);
    assert q in r ==> r[q] != [];
    assert q in m ==> m[q] != [];
  }

  /** Re-sending a node's current list changes nothing. */
  lemma SetMatchesIdempotent(m: Adjacency, p: nat)
    requires WellFormed(m)
    ensures SetMatchesSpec(m, p, Get(m, p)) == m
  {
    var r := SetMatchesSpec(m, p, Get(m, p));
    forall q ensures (q in r <==> q in m) && (q in m ==> r[q] == m[q]) {
      SameEntryAfterResend(m, p, q);
    }
  }

  lemma SameEntryAfterResend(m: Adjacency, p: nat, q: nat)
    requires WellFormed(m)
    ensures q in SetMatchesSpec(m, p, Get(m, p)) <==> q in m
    ensures q in m ==> SetMatchesSpec(m, p, Get(m, p))[q] == m[q]
  {
    var r := SetMatchesSpec(m, p, Get(m, p));
    SetMatchesEntry(m, p, Get(m, p), q);
    assert Get(r, q) == Get(m, q);
    assert q in r ==> r[q] != [];
    assert q in m ==> m[q] != [];
  }

  /** One more iteration of removeMatches. */
  lemma AfterRemoveStep(m: Adjacency, removed: seq<nat>, probe: nat, x: nat)
    requires forall q :: q in removed + [x] ==> q in m && Sorted(m[q]) && probe in m[q]
    requires x !in removed
    ensures x in AfterRemove(m, removed, probe) && AfterRemove(m, removed, probe)[x] == m[x]
    ensures AfterRemove(m, removed + [x], probe) ==
              var cur := AfterRemove(m, removed, probe);
              var rest := EraseSorted(m[x], probe);
              if rest == [] then cur - {x} else cur[x := rest]
  {
    var cur := AfterRemove(m, removed, probe);
    var rest := EraseSorted(m[x], probe);
    var next := AfterRemove(m, removed + [x], probe);
    var expected := if rest == [] then cur - {x} else cur[x := rest];
    forall q ensures (q in next <==> q in expected) && (q in next ==> next[q] == expected[q]) {
      AfterRemoveStepAt(m, removed, probe, x, q);
    }
  }

  lemma AfterRemoveStepAt(m: Adjacency, removed: seq<nat>, probe: nat, x: nat, q: nat)
    requires forall q :: q in removed + [x] ==> q in m && Sorted(m[q]) && probe in m[q]
    requires x !in removed
    ensures q in AfterRemove(m, removed + [x], probe) <==>
              if q == x then EraseSorted(m[x], probe) != [] else q in AfterRemove(m, removed, probe)
    ensures q in AfterRemove(m, removed + [x], probe) ==>
              AfterRemove(m, removed + [x], probe)[q] ==
                if q == x then EraseSorted(m[x], probe) else AfterRemove(m, removed, probe)[q]
  {
    assert q in removed + [x] <==> q in removed || q == x;
  }

  /** One more iteration of insertMatches. */
  lemma AfterInsertStep(m: Adjacency, added: seq<nat>, probe: nat, x: nat)
    requires EntriesSorted(m)
    requires x !in added
    ensures Get(AfterInsert(m, added, probe), x) == Get(m, x)
    ensures AfterInsert(m, added + [x], probe) ==
              AfterInsert(m, added, probe)[x := InsertSorted(Get(m, x), probe)]
  {
    var cur := AfterInsert(m, added, probe);
    var next := AfterInsert(m, added + [x], probe);
    var expected := cur[x := InsertSorted(Get(m, x), probe)];
    forall q ensures (q in next <==> q in expected) && (q in next ==> next[q] == expected[q]) {
      assert q in added + [x] <==> q in added || q == x;
    }
  }

  class SymmetricMatchMatrix {
    var matches: Adjacency

    ghost predicate Valid()
      reads this
    {
      WellFormed(matches)
    }

    constructor()
      ensures Valid() && matches == map[]
    {
      matches := map[];
    }

    /** Replace probe's neighbour list, propagating each added and dropped
        match to the other end. */
    method SetMatches(probe: nat, updatedMatches: seq<nat>)
      requires Valid() && Sorted(updatedMatches)
      modifies this
      ensures Valid()
      ensures matches == SetMatchesSpec(old(matches), probe, updatedMatches)
    {
      ghost var m0 := matches;
      var outdatedMatches := GetMatches(probe);
      DroppedHoldProbe(matches, probe, updatedMatches);
      RemoveMatches(Difference(outdatedMatches, updatedMatches), probe);
      AfterRemoveShape(m0, Difference(outdatedMatches, updatedMatches), probe);
      // outdatedMatches is a reference to probe's entry: it now sees the removals
      InsertMatches(Difference(updatedMatches, Get(matches, probe)), probe);
      if updatedMatches == [] {
        matches := matches - {probe};
      } else {
        matches := matches[probe := updatedMatches];
      }
      SetMatchesWellFormed(m0, probe, updatedMatches);
    }

    /** probe's neighbours, or nothing when it has no entry. */
    function GetMatches(probe: nat): (r: seq<nat>)
      reads this
      requires Valid()
      ensures Sorted(r)
      ensures r == [] <==> probe !in matches
      ensures forall q :: q in r <==> Adjacent(matches, probe, q)
    {
      Get(matches, probe)
    }

    /** Every node that has an entry, in ascending order. */
    method GetProbes() returns (probes: seq<nat>)
      ensures Sorted(probes)
      ensures Elems(probes) == matches.Keys
    {
      probes := SortedElements(matches.Keys);
    }

    /** The connected component of probe in ascending order, found by a
        depth-first traversal with an explicit stack and a visited set; empty
        when probe has no entry. */
    method GetCluster(probe: nat) returns (cluster: seq<nat>)
      requires Valid()
      ensures cluster == Component(matches, probe)
      ensures Sorted(cluster)
      ensures cluster == [] <==> probe !in matches
      ensures probe in matches ==> probe in cluster
      ensures forall x :: x in cluster <==> x in matches && Reachable(matches, probe, x)
    {
      ComponentOfKey(matches, probe);
      if probe !in matches {
        assert forall x :: x in matches && Reachable(matches, probe, x) ==>
                 x in ComponentSet(matches, probe);
        return [];
      }
      var clustered: set<nat> := {};
      var toProcess: seq<nat> := [probe];
      ReachableSelf(matches, probe);
      while toProcess != []
        invariant clustered <= matches.Keys
        invariant forall x :: x in toProcess ==> x in matches
        invariant forall x :: x in clustered ==> Reachable(matches, probe, x)
        invariant forall x :: x in toProcess ==> Reachable(matches, probe, x)
        invariant probe in clustered || probe in toProcess
        invariant forall v, w :: v in clustered && Adjacent(matches, v, w) ==>
                    w in clustered || w in toProcess
        decreases matches.Keys - clustered, |toProcess|
      {
        var node := toProcess[|toProcess| - 1];
        toProcess := toProcess[..|toProcess| - 1];
        if node !in clustered {
          clustered := clustered + {node};
          var matchesOfMatch := matches[node];
          ghost var before := toProcess;
          for j := 0 to |matchesOfMatch|
            invariant forall x :: x in before ==> x in toProcess
            invariant forall x :: x in toProcess ==> x in matches
            invariant forall x :: x in toProcess ==> Reachable(matches, probe, x)
            invariant forall k :: 0 <= k < j ==>
                        matchesOfMatch[k] in clustered || matchesOfMatch[k] in toProcess
          {
            var matchOfMatch := matchesOfMatch[j];
            if matchOfMatch !in clustered {
              assert Adjacent(matches, node, matchOfMatch);
              assert Adjacent(matches, matchOfMatch, node);
              ReachableStep(matches, probe, node, matchOfMatch);
              toProcess := toProcess + [matchOfMatch];
            }
          }
        }
      }
      forall x | x in matches && Reachable(matches, probe, x) ensures x in clustered {
        ClosedSetHoldsReachable(matches, clustered, probe, x);
      }
      assert clustered == ComponentSet(matches, probe);
      cluster := SortedElements(clustered);
    }

    /** Forget every match. */
    method Clear()
      modifies this
      ensures Valid() && matches == map[]
    {
      matches := map[];
    }

    /** Erase probe from the list of each node in removedMatches, dropping an
        entry that becomes empty. */
    method RemoveMatches(removedMatches: seq<nat>, probe: nat)
      requires Sorted(removedMatches)
      requires forall q :: q in removedMatches ==> q in matches && Sorted(matches[q]) && probe in matches[q]
      modifies this
      ensures matches == AfterRemove(old(matches), removedMatches, probe)
    {
      ghost var m0 := matches;
      for i := 0 to |removedMatches|
        invariant matches == AfterRemove(m0, removedMatches[..i], probe)
      {
        var removedMatch := removedMatches[i];
        assert removedMatches[..i + 1] == removedMatches[..i] + [removedMatch];
        AfterRemoveStep(m0, removedMatches[..i], probe, removedMatch);
        var matchesOfRemovedMatch := EraseSorted(matches[removedMatch], probe);
        if matchesOfRemovedMatch == [] {
          matches := matches - {removedMatch};
        } else {
          matches := matches[removedMatch := matchesOfRemovedMatch];
        }
      }
      assert removedMatches[..|removedMatches|] == removedMatches;
    }

    /** Insert probe at its lower bound into the list of each node in
        newMatches, creating the entry when the node has none. */
    method InsertMatches(newMatches: seq<nat>, probe: nat)
      requires Sorted(newMatches) && EntriesSorted(matches)
      modifies this
      ensures matches == AfterInsert(old(matches), newMatches, probe)
    {
      ghost var m0 := matches;
      for i := 0 to |newMatches|
        invariant matches == AfterInsert(m0, newMatches[..i], probe)
      {
        var newMatch := newMatches[i];
        assert newMatches[..i + 1] == newMatches[..i] + [newMatch];
        AfterInsertStep(m0, newMatches[..i], probe, newMatch);
        matches := matches[newMatch := InsertSorted(Get(matches, newMatch), probe)];
      }
      assert newMatches[..|newMatches|] == newMatches;
    }
  }
}
