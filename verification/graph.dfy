/**
 The breakpoint graph of an extended permutation (ext/libd/invdist.cpp).

 Vertices are the positions 0..n-1. Black edges join positions 2k and 2k+1;
 both the black neighbour of a position and the partner of a value are
 given by Mate. A grey edge joins position p to the position holding the
 partner of perm[p], unless that position is p's own black neighbour, in
 which case p carries a self loop, written -1.
 */
module Graph {
  import opened Counting

  /** The other end of the black edge at x: 2k <-> 2k+1. */
  function Mate(x: int): int {
    if x % 2 == 0 then x + 1 else x - 1
  }

  lemma MateFacts(x: int, n: int)
    requires n % 2 == 0 && 0 <= x < n
    ensures 0 <= Mate(x) < n
    ensures Mate(Mate(x)) == x && Mate(x) != x
    ensures x / 2 == Mate(x) / 2
  {
  }

  /** A permutation of 0..n-1. */
  predicate IsPermutation(perm: seq<int>) {
    InRange(perm, |perm|) && Distinct(perm)
  }

  function IndexFrom(perm: seq<int>, v: int, j: nat): (q: int)
    requires j <= |perm| && v in perm[j..]
    ensures j <= q < |perm| && perm[q] == v
    decreases |perm| - j
  {
    if perm[j] == v then j
    else
      assert perm[j..] == [perm[j]] + perm[j + 1..];
      IndexFrom(perm, v, j + 1)
  }

  /** The position holding value v (`invperm[v]`). */
  function IndexOf(perm: seq<int>, v: int): (q: int)
    requires IsPermutation(perm) && 0 <= v < |perm|
    ensures 0 <= q < |perm| && perm[q] == v
  {
    Onto(perm, |perm|);
    assert perm[0..] == perm;
    IndexFrom(perm, v, 0)
  }

  /** Reference grey edge at position p. */
  function Grey(perm: seq<int>, p: int): (q: int)
    requires IsPermutation(perm) && |perm| % 2 == 0 && 0 <= p < |perm|
    ensures q == -1 || (0 <= q < |perm| && q != Mate(p))
  {
    MateFacts(perm[p], |perm|);
    MateFacts(p, |perm|);
    var q := IndexOf(perm, Mate(perm[p]));
    if q == Mate(p) then -1 else q
  }

  /** Well-formed grey edges over n = |grey| vertices: every edge is a
      symmetric pairing of two distinct vertices that are not black
      neighbours, and a vertex has a self loop exactly when its black
      neighbour has one. */
  predicate GreyGraph(grey: seq<int>) {
    && |grey| % 2 == 0
    && forall p :: 0 <= p < |grey| ==> GreyAt(grey, p)
  }

  /** The grey-edge conditions at vertex p. */
  predicate GreyAt(grey: seq<int>, p: int)
    requires 0 <= p < |grey|
  {
    && (grey[p] != -1 ==>
          0 <= grey[p] < |grey| && grey[p] != p && grey[p] != Mate(p) && grey[grey[p]] == p)
    && 0 <= Mate(p) < |grey|
    && (grey[p] == -1 <==> grey[Mate(p)] == -1)
  }

  function GreyEdgesOf(perm: seq<int>): (grey: seq<int>)
    requires IsPermutation(perm) && |perm| % 2 == 0
    ensures |grey| == |perm|
    ensures forall p :: 0 <= p < |perm| ==> grey[p] == Grey(perm, p)
  {
    seq(|perm|, p requires 0 <= p < |perm| => Grey(perm, p))
  }

  /** A grey edge is symmetric, and never joins a vertex to itself or to its
      black neighbour. */
  lemma GreySymmetric(perm: seq<int>, p: int)
    requires IsPermutation(perm) && |perm| % 2 == 0 && 0 <= p < |perm|
    requires Grey(perm, p) != -1
    ensures Grey(perm, p) != p
    ensures Grey(perm, Grey(perm, p)) == p
  {
    var n := |perm|;
    var q := Grey(perm, p);
    MateFacts(perm[p], n);
    MateFacts(p, n);
    MateFacts(q, n);
    assert Mate(perm[q]) == perm[p];
    assert IndexOf(perm, Mate(perm[q])) == p;
  }

  /** A vertex has a self loop exactly when its black neighbour has one. */
  lemma GreyLoops(perm: seq<int>, p: int)
    requires IsPermutation(perm) && |perm| % 2 == 0 && 0 <= p < |perm|
    ensures 0 <= Mate(p) < |perm|
    ensures Grey(perm, p) == -1 <==> Grey(perm, Mate(p)) == -1
  {
    MateFacts(p, |perm|);
    MateFacts(perm[p], |perm|);
    MateFacts(perm[Mate(p)], |perm|);
  }

  /** The grey edges of any permutation of even length form a symmetric
      pairing, and self loops come in black-edge pairs. */
  lemma GreyIsGraph(perm: seq<int>)
    requires IsPermutation(perm) && |perm| % 2 == 0
    ensures GreyGraph(GreyEdgesOf(perm))
  {
    var grey := GreyEdgesOf(perm);
    forall p | 0 <= p < |perm|
      ensures GreyAt(grey, p)
    {
      if grey[p] != -1 {
        GreySymmetric(perm, p);
      }
      GreyLoops(perm, p);
    }
  }
}
