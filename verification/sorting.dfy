/**
 Sorting of integer sequences, standing in for the `std::sort` calls the
 validators make, together with the two facts the validators need: sorting
 keeps the multiset of values, and a sorted sequence is determined by that
 multiset.
 */
module Sorting {
  import opened Counting

  predicate Sorted(s: seq<int>) {
    forall i, j :: 0 <= i < j < |s| ==> s[i] <= s[j]
  }

  function Insert(x: int, s: seq<int>): (r: seq<int>)
    requires Sorted(s)
    ensures Sorted(r)
    ensures multiset(r) == multiset(s) + multiset{x}
    ensures r[0] == if s == [] || x <= s[0] then x else s[0]
  {
    if |s| == 0 then [x]
    else if x <= s[0] then
      ConsSorted(x, s);
      [x] + s
    else
      var t := Insert(x, s[1..]);
      assert s == [s[0]] + s[1..];
      assert |s| > 1 ==> s[0] <= s[1];
      ConsSorted(s[0], t);
      [s[0]] + t
  }

  lemma ConsSorted(h: int, t: seq<int>)
    requires Sorted(t) && (t == [] || h <= t[0])
    ensures Sorted([h] + t)
  {
  }

  /** Insertion sort: the result is ordered and is a permutation of the input. */
  function Sort(s: seq<int>): (r: seq<int>)
    ensures Sorted(r)
    ensures multiset(r) == multiset(s)
    ensures |r| == |s|
  {
    if |s| == 0 then []
    else
      assert s == [s[0]] + s[1..];
      var r := Insert(s[0], Sort(s[1..]));
      assert |r| == |multiset(r)|;
      r
  }

  /** Two ordered sequences with the same multiset of values are equal. */
  lemma {:induction false} SortedUnique(a: seq<int>, b: seq<int>)
    requires Sorted(a) && Sorted(b)
    requires multiset(a) == multiset(b)
    ensures a == b
  {
    assert |a| == |multiset(a)| == |multiset(b)| == |b|;
    if |a| > 0 {
      assert a[0] == b[0] by {
        assert a[0] in multiset(b);
        assert b[0] in multiset(a);
        LeastIsFirst(a, b[0]);
        LeastIsFirst(b, a[0]);
      }
      var ta, tb := a[1..], b[1..];
      assert a == [a[0]] + ta;
      assert b == [b[0]] + tb;
      assert multiset(a) == multiset{a[0]} + multiset(ta);
      assert multiset(b) == multiset{b[0]} + multiset(tb);
      assert multiset(ta) == multiset(a) - multiset{a[0]};
      assert multiset(tb) == multiset(b) - multiset{b[0]};
      SortedUnique(ta, tb);
    }
  }

  lemma LeastIsFirst(s: seq<int>, x: int)
    requires Sorted(s) && x in s
    ensures |s| > 0 && s[0] <= x
  {
  }

  /** A sequence repeats no value exactly when every value occurs at most once. */
  lemma {:induction false} DistinctMultiplicity(s: seq<int>)
    ensures Distinct(s) <==> forall x :: multiset(s)[x] <= 1
  {
    if |s| > 0 {
      var t := s[1..];
      assert s == [s[0]] + t;
      DistinctMultiplicity(t);
      if Distinct(s) {
        DistinctHead(s);
      } else {
        RepeatCounted(s);
      }
    }
  }

  /** A distinct sequence: its tail is distinct and misses the head. */
  lemma DistinctHead(s: seq<int>)
    requires |s| > 0 && Distinct(s)
    ensures Distinct(s[1..]) && s[0] !in s[1..]
  {
    var t := s[1..];
    forall i, j | 0 <= i < j < |t|
      ensures t[i] != t[j]
    {
      assert t[i] == s[i + 1] && t[j] == s[j + 1];
    }
    assert forall j :: 0 <= j < |t| ==> t[j] == s[j + 1] != s[0];
  }

  /** A repeat in s is a repeat of the head in the tail, or a repeat of the
      tail. */
  lemma RepeatCounted(s: seq<int>)
    requires |s| > 0 && !Distinct(s)
    requires !Distinct(s[1..]) <==> !forall x :: multiset(s[1..])[x] <= 1
    ensures !forall x :: multiset(s)[x] <= 1
  {
    var t := s[1..];
    assert s == [s[0]] + t;
    var i, j :| 0 <= i < j < |s| && s[i] == s[j];
    if i == 0 {
      assert t[j - 1] == s[0];
      assert multiset(s)[s[0]] == multiset(t)[s[0]] + 1;
    } else {
      assert t[i - 1] == t[j - 1];
      assert !Distinct(t);
      var x :| multiset(t)[x] > 1;
      assert multiset(s)[x] >= multiset(t)[x];
    }
  }

  /** Whether values repeat does not depend on their order. */
  lemma DistinctPermutation(a: seq<int>, b: seq<int>)
    requires multiset(a) == multiset(b)
    ensures Distinct(a) <==> Distinct(b)
  {
    DistinctMultiplicity(a);
    DistinctMultiplicity(b);
  }

  /** In an ordered sequence a value repeats exactly when it repeats at
      neighbouring positions. */
  predicate AdjacentEqual(s: seq<int>) {
    exists i :: 0 <= i < |s| - 1 && s[i] == s[i + 1]
  }

  lemma SortedAdjacent(s: seq<int>)
    requires Sorted(s)
    ensures AdjacentEqual(s) <==> !Distinct(s)
  {
    if !Distinct(s) {
      var i, j :| 0 <= i < j < |s| && s[i] == s[j];
      assert s[i] <= s[i + 1] <= s[j];
    }
  }
}
