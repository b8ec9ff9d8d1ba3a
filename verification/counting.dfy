/**
 Finite counting facts about integer sequences whose values lie in a range
 [0, n): the pigeonhole principle and its converse. The graph algorithms rely
 on them to know that an injective array over [0, n) is onto, that a walk
 over n vertices must repeat, and that a list of distinct vertices is short.
 */
module Counting {

  predicate Distinct(s: seq<int>) {
    forall i, j :: 0 <= i < j < |s| ==> s[i] != s[j]
  }

  predicate InRange(s: seq<int>, n: int) {
    forall i :: 0 <= i < |s| ==> 0 <= s[i] < n
  }

  function Elements(s: seq<int>): set<int> {
    set x | x in s
  }

  function Range(n: nat): (r: set<int>)
    ensures forall v :: v in r <==> 0 <= v < n
  {
    if n == 0 then {} else Range(n - 1) + {n - 1}
  }

  lemma {:induction false} DistinctCard(s: seq<int>)
    requires Distinct(s)
    ensures |Elements(s)| == |s|
  {
    if |s| > 0 {
      var t := s[..|s| - 1];
      assert Distinct(t);
      DistinctCard(t);
      assert Elements(s) == Elements(t) + {s[|s| - 1]};
      assert s[|s| - 1] !in Elements(t);
    }
  }

  lemma {:induction false} RangeCard(n: nat)
    ensures |Range(n)| == n
  {
    if n > 0 {
      RangeCard(n - 1);
    }
  }

  lemma SubsetCard(a: set<int>, b: set<int>)
    requires a <= b
    ensures |a| <= |b|
  {
    assert b == a + (b - a);
  }

  /** A sequence of distinct values in [0, n) has at most n entries. */
  lemma DistinctBounded(s: seq<int>, n: nat)
    requires InRange(s, n) && Distinct(s)
    ensures |s| <= n
  {
    DistinctCard(s);
    RangeCard(n);
    assert Elements(s) <= Range(n);
    SubsetCard(Elements(s), Range(n));
  }

  /** Pigeonhole: more than n values in [0, n) contain a repetition. */
  lemma Pigeonhole(s: seq<int>, n: nat)
    requires InRange(s, n) && |s| > n
    ensures exists a, b :: 0 <= a < b < |s| && s[a] == s[b]
  {
    if Distinct(s) {
      DistinctBounded(s, n);
    }
  }

  /** n distinct values in [0, n) take every value of the range. */
  lemma Onto(s: seq<int>, n: nat)
    requires |s| == n && InRange(s, n) && Distinct(s)
    ensures forall v :: 0 <= v < n ==> v in s
  {
    forall v | 0 <= v < n
      ensures v in s
    {
      if v !in s {
        DistinctCard(s);
        RangeCard(n);
        assert Elements(s) <= Range(n) - {v};
        assert Range(n) == (Range(n) - {v}) + {v};
        SubsetCard(Elements(s), Range(n) - {v});
      }
    }
  }
}
