/** The match relation as a table from a node id to its ascending neighbour
    ids, its standing invariant, and connectivity over it. */
module Graph {
  import opened SortedSeqs

  /** Node id to the ascending, duplicate-free ids of its matches. */
  type Adjacency = map<nat, seq<nat>>

  /** The entry of q, or the empty list when q has none (a lookup that falls
      back to an empty vector, as getMatches and operator[] reads do). */
  function Get(m: Adjacency, q: nat): seq<nat> {
    if q in m then m[q] else []
  }

  /** b is listed among a's matches. */
  predicate Adjacent(m: Adjacency, a: nat, b: nat) {
    a in m && b in m[a]
  }

  ghost predicate EntriesSorted(m: Adjacency) {
    forall q :: q in m ==> Sorted(m[q])
  }

  ghost predicate NoEmptyEntries(m: Adjacency) {
    forall q :: q in m ==> m[q] != []
  }

  ghost predicate Symmetric(m: Adjacency) {
    forall a, b :: Adjacent(m, a, b) ==> Adjacent(m, b, a)
  }

  /** The store's standing invariant: every list ascending and duplicate-free,
      no empty list kept, and the relation symmetric. */
  ghost predicate WellFormed(m: Adjacency) {
    EntriesSorted(m) && NoEmptyEntries(m) && Symmetric(m)
  }

  /** A walk along matches. */
  ghost predicate IsPath(m: Adjacency, path: seq<nat>) {
    |path| > 0 && forall i :: 0 <= i < |path| - 1 ==> Adjacent(m, path[i], path[i + 1])
  }

  ghost predicate Reachable(m: Adjacency, a: nat, b: nat) {
    exists path :: IsPath(m, path) && path[0] == a && path[|path| - 1] == b
  }

  /** The nodes with an entry that p reaches: p's connected component, empty
      when p has no entry. */
  ghost function ComponentSet(m: Adjacency, p: nat): set<nat> {
    set x | x in m && Reachable(m, p, x)
  }

  /** The component in ascending order, as getCluster returns it. */
  ghost function Component(m: Adjacency, p: nat): seq<nat> {
    SortedSeqOf(ComponentSet(m, p))
  }

  lemma ReachableSelf(m: Adjacency, p: nat)
    ensures Reachable(m, p, p)
  {
    assert IsPath(m, [p]);
  }

  /** One more match extends a walk. */
  lemma ReachableStep(m: Adjacency, p: nat, v: nat, w: nat)
    requires Reachable(m, p, v) && Adjacent(m, v, w)
    ensures Reachable(m, p, w)
  {
    var path :| IsPath(m, path) && path[0] == p && path[|path| - 1] == v;
    var longer := path + [w];
    assert IsPath(m, longer);
  }

  /** Walks compose. */
  lemma ReachableTrans(m: Adjacency, a: nat, b: nat, c: nat)
    requires Reachable(m, a, b) && Reachable(m, b, c)
    ensures Reachable(m, a, c)
  {
    var p1 :| IsPath(m, p1) && p1[0] == a && p1[|p1| - 1] == b;
    var p2 :| IsPath(m, p2) && p2[0] == b && p2[|p2| - 1] == c;
    var joined := p1 + p2[1..];
    assert IsPath(m, joined) by {
      forall i | 0 <= i < |joined| - 1 ensures Adjacent(m, joined[i], joined[i + 1]) {
        if i < |p1| - 1 {
          assert joined[i] == p1[i] && joined[i + 1] == p1[i + 1];
        } else {
          assert joined[i] == p2[i - |p1| + 1] && joined[i + 1] == p2[i - |p1| + 2];
        }
      }
    }
  }

  /** In a symmetric relation every walk can be walked back. */
  lemma ReachableReverse(m: Adjacency, a: nat, b: nat)
    requires Symmetric(m) && Reachable(m, a, b)
    ensures Reachable(m, b, a)
  {
    var path :| IsPath(m, path) && path[0] == a && path[|path| - 1] == b;
    var n := |path|;
    var back := seq(n, i requires 0 <= i < n => path[n - 1 - i]);
    assert IsPath(m, back) by {
      forall i | 0 <= i < n - 1 ensures Adjacent(m, back[i], back[i + 1]) {
        assert Adjacent(m, path[n - 2 - i], path[n - 1 - i]);
      }
    }
  }

  /** Every node of a walk that starts inside a set closed under matches lies
      in that set. */
  lemma {:induction false} PathInClosedSet(m: Adjacency, s: set<nat>, path: seq<nat>)
    requires IsPath(m, path) && path[0] in s
    requires forall v, w :: v in s && Adjacent(m, v, w) ==> w in s
    ensures path[|path| - 1] in s
  {
    if |path| > 1 {
      var prefix := path[..|path| - 1];
      assert IsPath(m, prefix);
      PathInClosedSet(m, s, prefix);
      assert Adjacent(m, path[|path| - 2], path[|path| - 1]);
    }
  }

  /** A set that holds p and is closed under matches holds everything p
      reaches. */
  lemma ClosedSetHoldsReachable(m: Adjacency, s: set<nat>, p: nat, x: nat)
    requires p in s
    requires forall v, w :: v in s && Adjacent(m, v, w) ==> w in s
    requires Reachable(m, p, x)
    ensures x in s
  {
    var path :| IsPath(m, path) && path[0] == p && path[|path| - 1] == x;
    PathInClosedSet(m, s, path);
  }

  /** Reaching any other node takes a first match, so the start has an
      entry. */
  lemma ReachableOtherNeedsEntry(m: Adjacency, p: nat, x: nat)
    requires Reachable(m, p, x) && x != p
    ensures p in m
  {
    var path :| IsPath(m, path) && path[0] == p && path[|path| - 1] == x;
    assert Adjacent(m, path[0], path[1]);
  }

  /** The component is empty exactly when p has no entry, and otherwise
      holds p. */
  lemma ComponentOfKey(m: Adjacency, p: nat)
    ensures p in m ==> p in ComponentSet(m, p)
    ensures p !in m ==> ComponentSet(m, p) == {}
    ensures Component(m, p) == [] <==> p !in m
  {
    ReachableSelf(m, p);
    if p !in m {
      forall x | x in ComponentSet(m, p) ensures false {
        ReachableOtherNeedsEntry(m, p, x);
      }
    } else {
      assert p in Elems(Component(m, p));
    }
  }

  /** Every member of a component has that same component: components
      partition the nodes with an entry. */
  lemma ComponentOfMember(m: Adjacency, p: nat, x: nat)
    requires Symmetric(m) && x in ComponentSet(m, p)
    ensures ComponentSet(m, x) == ComponentSet(m, p)
  {
    ReachableReverse(m, p, x);
    forall y | y in ComponentSet(m, x) ensures y in ComponentSet(m, p) {
      ReachableTrans(m, p, x, y);
    }
    forall y | y in ComponentSet(m, p) ensures y in ComponentSet(m, x) {
      ReachableTrans(m, x, p, y);
    }
  }

  /** Two components either coincide or share no node. */
  lemma ComponentsDisjointOrEqual(m: Adjacency, p: nat, q: nat)
    requires Symmetric(m)
    ensures ComponentSet(m, p) == ComponentSet(m, q) || ComponentSet(m, p) !! ComponentSet(m, q)
  {
    if y :| y in ComponentSet(m, p) && y in ComponentSet(m, q) {
      ComponentOfMember(m, p, y);
      ComponentOfMember(m, q, y);
    }
  }
}
