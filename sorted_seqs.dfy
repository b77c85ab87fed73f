/** Ordered-set algebra on ascending, duplicate-free sequences of ids: the
    standard algorithms both classes lean on (std::lower_bound, vector insert
    and erase at a position, std::set_difference, std::sort followed by
    std::unique). */
module SortedSeqs {

  /** Ascending with no adjacent duplicates, i.e. strictly increasing. */
  predicate Sorted(s: seq<nat>) {
    forall i, j :: 0 <= i < j < |s| ==> s[i] < s[j]
  }

  /** The elements of a sequence, as a set. */
  function Elems(s: seq<nat>): set<nat> {
    set x | x in s
  }

  /** A strictly increasing sequence has as many elements as distinct values. */
  lemma {:induction false} SortedCard(s: seq<nat>)
    requires Sorted(s)
    ensures |Elems(s)| == |s|
  {
    if s != [] {
      SortedCard(s[1..]);
      assert Elems(s) == {s[0]} + Elems(s[1..]);
      assert s[0] !in Elems(s[1..]);
    }
  }

  /** Two strictly increasing sequences with the same elements are equal: the
      sorted form of a set is unique. */
  lemma {:induction false} SortedUnique(a: seq<nat>, b: seq<nat>)
    requires Sorted(a) && Sorted(b) && Elems(a) == Elems(b)
    ensures a == b
  {
    SortedCard(a);
    SortedCard(b);
    if a != [] {
      assert a[0] in Elems(b) && b[0] in Elems(a);
      assert a[0] == b[0];
      assert Elems(a[1..]) == Elems(a) - {a[0]};
      assert Elems(b[1..]) == Elems(b) - {b[0]};
      SortedUnique(a[1..], b[1..]);
      assert a == [a[0]] + a[1..];
      assert b == [b[0]] + b[1..];
    }
  }

  /** std::lower_bound: the first position whose element is not less than x. */
  function LowerBound(s: seq<nat>, x: nat): (i: nat)
    requires Sorted(s)
    ensures i <= |s|
    ensures forall k :: 0 <= k < i ==> s[k] < x
    ensures forall k :: i <= k < |s| ==> x <= s[k]
  {
    if s == [] || x <= s[0] then 0 else 1 + LowerBound(s[1..], x)
  }

  /** vector::insert of x at its lower bound. The result stays strictly
      increasing exactly when x was not already there. */
  function InsertSorted(s: seq<nat>, x: nat): (r: seq<nat>)
    requires Sorted(s)
    ensures |r| == |s| + 1
    ensures Elems(r) == Elems(s) + {x}
    ensures Sorted(r) <==> x !in s
  {
    var i := LowerBound(s, x);
    InsertAt(s, x, i);
    s[..i] + [x] + s[i..]
  }

  /** What inserting x at position i does, when i is x's lower bound. */
  lemma InsertAt(s: seq<nat>, x: nat, i: nat)
    requires Sorted(s) && i <= |s|
    requires forall k :: 0 <= k < i ==> s[k] < x
    requires forall k :: i <= k < |s| ==> x <= s[k]
    ensures Elems(s[..i] + [x] + s[i..]) == Elems(s) + {x}
    ensures Sorted(s[..i] + [x] + s[i..]) <==> x !in s
  {
    InsertElems(s, x, i);
    if x in s {
      var k :| 0 <= k < |s| && s[k] == x;
      assert i <= k;
      var r := s[..i] + [x] + s[i..];
      assert r[i] == x && r[i + 1] == s[i] == x;
    } else {
      InsertAbsent(s, x, i);
    }
  }

  /** Inserting x anywhere adds exactly x to the elements. */
  lemma InsertElems(s: seq<nat>, x: nat, i: nat)
    requires i <= |s|
    ensures Elems(s[..i] + [x] + s[i..]) == Elems(s) + {x}
  {
    assert s == s[..i] + s[i..];
  }

  /** Inserting an absent x at its lower bound keeps the order strict. */
  lemma InsertAbsent(s: seq<nat>, x: nat, i: nat)
    requires Sorted(s) && i <= |s| && x !in s
    requires forall k :: 0 <= k < i ==> s[k] < x
    requires forall k :: i <= k < |s| ==> x <= s[k]
    ensures Sorted(s[..i] + [x] + s[i..])
  {
    var r := s[..i] + [x] + s[i..];
    forall j, k | 0 <= j < k < |r| ensures r[j] < r[k] {
      if k < i {
      } else if j < i {
      } else if j == i {
        assert r[k] == s[k - 1];
      } else {
        assert r[j] == s[j - 1] && r[k] == s[k - 1];
      }
    }
  }

  /** vector::erase at the lower bound of x, where x is present. */
  function EraseSorted(s: seq<nat>, x: nat): (r: seq<nat>)
    requires Sorted(s) && x in s
    ensures |r| == |s| - 1
    ensures Sorted(r)
    ensures Elems(r) == Elems(s) - {x}
  {
    var i := LowerBound(s, x);
    assert i < |s| && s[i] == x by {
      var k :| 0 <= k < |s| && s[k] == x;
      assert i <= k;
    }
    assert s == s[..i] + [x] + s[i + 1..];
    s[..i] + s[i + 1..]
  }

  /** The step of Difference that keeps a's head: a[0] is below every element
      of b, so it belongs to the difference and precedes the rest of it. */
  lemma KeepHead(a: seq<nat>, b: seq<nat>, rest: seq<nat>)
    requires Sorted(a) && Sorted(b) && a != [] && b != [] && a[0] < b[0]
    requires Sorted(rest) && Elems(rest) == Elems(a[1..]) - Elems(b)
    requires |rest| <= |a| - 1
    requires forall x :: x in a[1..] && x in b ==> |rest| < |a| - 1
    ensures Sorted([a[0]] + rest)
    ensures Elems([a[0]] + rest) == Elems(a) - Elems(b)
    ensures forall x :: x in a && x in b ==> |[a[0]] + rest| < |a|
  {
    assert Elems(a) == {a[0]} + Elems(a[1..]);
    assert forall y :: y in rest ==> a[0] < y by {
      forall y | y in rest ensures a[0] < y {
        assert y in Elems(rest);
        var k :| 0 <= k < |a| - 1 && a[1..][k] == y;
        assert a[k + 1] == y;
      }
    }
    assert Elems([a[0]] + rest) == {a[0]} + Elems(rest);
    assert forall x :: x in a && x in b ==> x in a[1..] by {
      forall x | x in a && x in b ensures x in a[1..] {
        var k :| 0 <= k < |b| && b[k] == x;
        assert b[0] <= x;
        assert a == [a[0]] + a[1..];
      }
    }
    var r := [a[0]] + rest;
    forall i, j | 0 <= i < j < |r| ensures r[i] < r[j] {
      assert r[j] == rest[j - 1] && rest[j - 1] in rest;
      if i > 0 { assert r[i] == rest[i - 1]; }
    }
  }

  /** std::set_difference over two strictly increasing sequences (a merge):
      the elements of a that are not in b, in ascending order. */
  function Difference(a: seq<nat>, b: seq<nat>): (r: seq<nat>)
    requires Sorted(a) && Sorted(b)
    ensures Sorted(r)
    ensures Elems(r) == Elems(a) - Elems(b)
    ensures |r| <= |a|
    ensures forall x :: x in a && x in b ==> |r| < |a|
    decreases |a| + |b|
  {
    if a == [] then []
    else if b == [] then a
    else if a[0] < b[0] then
      var rest := Difference(a[1..], b);
      KeepHead(a, b, rest);
      [a[0]] + rest
    else if b[0] < a[0] then
      assert Elems(b) == {b[0]} + Elems(b[1..]);
      Difference(a, b[1..])
    else
      assert Elems(a) == {a[0]} + Elems(a[1..]);
      assert Elems(b) == {b[0]} + Elems(b[1..]);
      Difference(a[1..], b[1..])
  }

  /** Taking a list away from itself leaves nothing. */
  lemma DifferenceSelf(a: seq<nat>)
    requires Sorted(a)
    ensures Difference(a, a) == []
  {
    assert Elems(Difference(a, a)) == {};
  }

  /** std::sort followed by std::unique: the distinct elements of s in
      ascending order, built by inserting each one at its lower bound. */
  method SortUnique(s: seq<nat>) returns (r: seq<nat>)
    ensures Sorted(r)
    ensures Elems(r) == Elems(s)
  {
    r := [];
    for i := 0 to |s|
      invariant Sorted(r)
      invariant Elems(r) == Elems(s[..i])
    {
      assert s[..i + 1] == s[..i] + [s[i]];
      if s[i] !in r {
        r := InsertSorted(r, s[i]);
      }
    }
    assert s[..|s|] == s;
  }

  /** The least element of a non-empty set. */
  ghost function MinOf(s: set<nat>): (m: nat)
    requires s != {}
    ensures m in s
    ensures forall y :: y in s ==> m <= y
  {
    var y :| y in s;
    if s == {y} then
      y
    else
      var z := MinOf(s - {y});
      assert forall w :: w in s ==> w == y || w in s - {y};
      if y < z then y else z
  }

  /** The ascending sequence of a set's elements (what std::sort leaves in a
      vector filled from an unordered container). */
  ghost function SortedSeqOf(s: set<nat>): (r: seq<nat>)
    ensures Sorted(r)
    ensures Elems(r) == s
    decreases s
  {
    if s == {} then []
    else
      var m := MinOf(s);
      var rest := SortedSeqOf(s - {m});
      PrependLeast(m, rest);
      [m] + rest
  }

  /** A value below every element of a sorted sequence can go in front. */
  lemma PrependLeast(m: nat, rest: seq<nat>)
    requires Sorted(rest) && forall y :: y in Elems(rest) ==> m < y
    ensures Sorted([m] + rest) && Elems([m] + rest) == {m} + Elems(rest)
  {
    var r := [m] + rest;
    forall i, j | 0 <= i < j < |r| ensures r[i] < r[j] {
      assert r[j] == rest[j - 1] && rest[j - 1] in Elems(rest);
      if i > 0 {
        assert r[i] == rest[i - 1];
      }
    }
    assert Elems(r) == {m} + Elems(rest) by {
      forall x ensures x in Elems(r) <==> x in {m} + Elems(rest) {
        if x in rest {
          var k :| 0 <= k < |rest| && rest[k] == x;
          assert r[k + 1] == x;
        }
      }
    }
  }

  /** Filling a vector from an unordered container (in whatever order it
      iterates) and sorting it: the result is the set's sorted form. */
  method SortedElements(s: set<nat>) returns (r: seq<nat>)
    ensures Sorted(r)
    ensures Elems(r) == s
    ensures r == SortedSeqOf(s)
  {
    var items: seq<nat> := [];
    var rest := s;
    while rest != {}
      invariant Elems(items) + rest == s
      decreases rest
    {
      var x :| x in rest;
      items := items + [x];
      rest := rest - {x};
    }
    r := SortUnique(items);
    SortedUnique(r, SortedSeqOf(s));
  }
}
