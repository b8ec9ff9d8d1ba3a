/**
 Grey edges and alternating cycles of the breakpoint graph (`num_cycles` in
 ext/libd/invdist.cpp).

 A traversal from vertex r alternates a black edge and a grey edge, so one
 full step maps x to grey[Mate(x)]. That step is injective on the vertices
 without a self loop, so every traversal returns to its start within n
 steps. Each traversal labels the vertices it meets with its start, which is
 the smallest vertex of its cycle; the number of traversals is the number of
 cycles that are not self loops.
 */
module Cycles {
  import opened Counting
  import opened Graph
  import opened Extended

  /* ---------------- Grey edges ---------------- */

  function InverseOf(perm: seq<int>): (inv: seq<int>)
    requires IsPermutation(perm)
  {
    seq(|perm|, v requires 0 <= v < |perm| => IndexOf(perm, v))
  }

  /** The first loop of `num_cycles`: invperm[v] is the position of value v. */
  method InversePositions(perm: seq<int>) returns (inv: seq<int>)
    requires IsPermutation(perm)
    ensures inv == InverseOf(perm)
  {
    var size := |perm|;
    var invperm := new int[size](_ => 0);
    var i := 0;
    while i < size
      invariant 0 <= i <= size
      invariant forall j :: 0 <= j < i ==> invperm[perm[j]] == j
    {
      invperm[perm[i]] := i;
      i := i + 1;
    }
    inv := invperm[..];
    forall v | 0 <= v < size
      ensures inv[v] == IndexOf(perm, v)
    {
      var q := IndexOf(perm, v);
      assert invperm[perm[q]] == q;
    }
  }

  /** In slot (i, i+1) of an extended permutation the value partners the
      grey edges look up are the neighbouring markers: one below the smaller
      marker and one above the larger. */
  lemma SlotMates(perm: seq<int>, i: int)
    requires IsExtended(perm) && 1 <= i < |perm| - 1 && i % 2 == 1
    ensures 0 <= Mate(perm[i]) < |perm| && 0 <= Mate(perm[i + 1]) < |perm|
    ensures perm[i] < perm[i + 1] ==>
      Mate(perm[i]) == perm[i] - 1 && Mate(perm[i + 1]) == perm[i] + 2
    ensures perm[i] >= perm[i + 1] ==>
      Mate(perm[i]) == perm[i] + 1 && Mate(perm[i + 1]) == perm[i] - 2
    ensures Mate(i) == i - 1 && Mate(i + 1) == i + 2
  {
    assert SlotHolds(perm, i);
    assert perm[i + 1] != perm[|perm| - 1];
    assert perm[i] != perm[|perm| - 1];
  }

  /** The grey edges of slot (i, i+1) as `num_cycles` computes them from
      invperm: j1 and j2 are the positions of the markers next to the slot's,
      and a position whose partner is its own black neighbour gets -1. */
  function SlotEdges(perm: seq<int>, inv: seq<int>, i: int): (e: seq<int>)
    requires IsExtended(perm) && 1 <= i < |perm| - 1 && i % 2 == 1
    requires inv == InverseOf(perm)
    ensures e == [Grey(perm, i), Grey(perm, i + 1)]
  {
    SlotMates(perm, i);
    var ind := perm[i];
    var j1 := if ind < perm[i + 1] then inv[ind - 1] else inv[ind + 1];
    var j2 := if ind < perm[i + 1] then inv[ind + 2] else inv[ind - 2];
    [if j1 != i - 1 then j1 else -1, if j2 != i + 2 then j2 else -1]
  }

  /** g holds the grey edges of the first |g| positions. */
  predicate EdgesUpTo(perm: seq<int>, g: seq<int>)
    requires IsPermutation(perm) && |perm| % 2 == 0
  {
    |g| <= |perm| && forall p :: 0 <= p < |g| ==> g[p] == Grey(perm, p)
  }

  /** The edges of slot (i, i+1) extend the edges before it. */
  lemma SlotPrefix(perm: seq<int>, inv: seq<int>, g: seq<int>, i: int)
    requires IsExtended(perm) && 1 <= i < |perm| - 1 && i % 2 == 1
    requires inv == InverseOf(perm)
    requires EdgesUpTo(perm, g) && |g| == i
    ensures EdgesUpTo(perm, g + SlotEdges(perm, inv, i))
  {
    var e := SlotEdges(perm, inv, i);
    var g' := g + e;
    forall p | 0 <= p < |g'|
      ensures g'[p] == Grey(perm, p)
    {
      if p < i {
        assert g'[p] == g[p];
      } else {
        assert g'[p] == e[p - i];
      }
    }
  }

  /** Position 0 holds value 0, whose partner 1 is looked up directly. */
  lemma FirstEdge(perm: seq<int>, inv: seq<int>)
    requires IsExtended(perm) && inv == InverseOf(perm)
    ensures EdgesUpTo(perm, [if inv[1] != 1 then inv[1] else -1])
  {
    assert Mate(perm[0]) == 1 && Mate(0) == 1;
  }

  /** The grey-edge phase of `num_cycles` up to the last position: position
      0 is looked up directly, every slot after it through SlotEdges. */
  method LeadingEdges(perm: seq<int>, inv: seq<int>) returns (g: seq<int>)
    requires IsExtended(perm)
    requires inv == InverseOf(perm)
    ensures |g| == |perm| - 1 && EdgesUpTo(perm, g)
  {
    var size := |perm|;
    var j1 := inv[1];
    FirstEdge(perm, inv);
    g := [if j1 != 1 then j1 else -1];
    var m := size / 2;
    var k := 1;
    while k < m
      invariant 1 <= k <= m && size == 2 * m
      invariant |g| == 2 * k - 1 && EdgesUpTo(perm, g)
    {
      var i := 2 * k - 1;
      var e := SlotEdges(perm, inv, i);
      SlotPrefix(perm, inv, g, i);
      g := g + e;
      k := k + 1;
    }
  }

  /** The last position holds value n-1, whose partner n-2 is looked up
      directly. */
  lemma LastEdge(perm: seq<int>, inv: seq<int>, g: seq<int>)
    requires IsExtended(perm) && inv == InverseOf(perm)
    requires |g| == |perm| - 1 && EdgesUpTo(perm, g)
    ensures g + [if inv[|perm| - 2] != |perm| - 2 then inv[|perm| - 2] else -1] == GreyEdgesOf(perm)
  {
    var size := |perm|;
    assert Mate(perm[size - 1]) == size - 2 && Mate(size - 1) == size - 2;
  }

  /** The grey-edge phase of `num_cycles`: the inverse permutation, then the
      edges up to the last position, then the last position's own lookup. */
  method GreyEdges(perm: seq<int>) returns (grey: seq<int>)
    requires IsExtended(perm)
    ensures IsPermutation(perm)
    ensures grey == GreyEdgesOf(perm)
  {
    var size := |perm|;
    var inv := InversePositions(perm);
    var g := LeadingEdges(perm, inv);
    var j1 := inv[size - 2];
    LastEdge(perm, inv, g);
    grey := g + [if j1 != size - 2 then j1 else -1];
  }

  /* ---------------- Traversals ---------------- */

  /** One black edge then one grey edge. */
  function Step(grey: seq<int>, x: int): (y: int)
    requires GreyGraph(grey) && 0 <= x < |grey| && grey[x] != -1
    ensures 0 <= y < |grey| && grey[y] != -1
  {
    assert GreyAt(grey, x);
    assert GreyAt(grey, Mate(x));
    grey[Mate(x)]
  }

  /** The vertex a traversal from r reaches after k full steps. */
  function Iter(grey: seq<int>, r: int, k: nat): (x: int)
    requires GreyGraph(grey) && 0 <= r < |grey| && grey[r] != -1
    ensures 0 <= x < |grey| && grey[x] != -1
  {
    if k == 0 then r else Step(grey, Iter(grey, r, k - 1))
  }

  lemma StepInjective(grey: seq<int>, x: int, y: int)
    requires GreyGraph(grey) && 0 <= x < |grey| && grey[x] != -1
    requires 0 <= y < |grey| && grey[y] != -1
    requires Step(grey, x) == Step(grey, y)
    ensures x == y
  {
    MateFacts(x, |grey|);
    MateFacts(y, |grey|);
    assert GreyAt(grey, Mate(x)) && GreyAt(grey, Mate(y));
  }

  lemma {:induction false} IterCancel(grey: seq<int>, r: int, a: nat, b: nat)
    requires GreyGraph(grey) && 0 <= r < |grey| && grey[r] != -1
    requires a <= b && Iter(grey, r, a) == Iter(grey, r, b)
    ensures Iter(grey, r, b - a) == r
  {
    if a > 0 {
      StepInjective(grey, Iter(grey, r, a - 1), Iter(grey, r, b - 1));
      IterCancel(grey, r, a - 1, b - 1);
    }
  }

  /** Every traversal returns to its start within n steps. */
  lemma Returns(grey: seq<int>, r: int)
    requires GreyGraph(grey) && 0 <= r < |grey| && grey[r] != -1
    ensures exists k :: 1 <= k <= |grey| && Iter(grey, r, k) == r
  {
    var n := |grey|;
    var s := seq(n + 1, k requires 0 <= k <= n => Iter(grey, r, k));
    Pigeonhole(s, n);
    var a, b :| 0 <= a < b < |s| && s[a] == s[b];
    IterCancel(grey, r, a, b);
  }

  /** Vertex v lies on the cycle traversed from r. */
  predicate OnCycle(grey: seq<int>, r: int, v: int)
    requires GreyGraph(grey) && 0 <= r < |grey| && grey[r] != -1
  {
    exists k :: 0 <= k <= |grey| && (v == Iter(grey, r, k) || v == Mate(Iter(grey, r, k)))
  }

  /** The vertices met by the first k steps of a traversal from r. */
  predicate Traced(grey: seq<int>, r: int, k: nat, v: int)
    requires GreyGraph(grey) && 0 <= r < |grey| && grey[r] != -1
  {
    exists j :: 0 <= j <= k && (v == Iter(grey, r, j) || (j < k && v == Mate(Iter(grey, r, j))))
  }

  lemma TracedSucc(grey: seq<int>, r: int, k: nat, v: int)
    requires GreyGraph(grey) && 0 <= r < |grey| && grey[r] != -1
    ensures Traced(grey, r, k + 1, v) <==>
      (Traced(grey, r, k, v) || v == Mate(Iter(grey, r, k)) || v == Iter(grey, r, k + 1))
  {
    if Traced(grey, r, k + 1, v) {
      var j :| 0 <= j <= k + 1 && (v == Iter(grey, r, j) || (j < k + 1 && v == Mate(Iter(grey, r, j))));
      if j < k + 1 && !(v == Mate(Iter(grey, r, k))) && v != Iter(grey, r, k + 1) {
        assert j <= k;
        if v == Iter(grey, r, j) {
          assert Traced(grey, r, k, v);
        } else {
          assert j < k;
        }
      }
    }
    if v == Mate(Iter(grey, r, k)) {
      assert Traced(grey, r, k + 1, v) by {
        assert k <= k + 1 && k < k + 1;
      }
    }
  }

  /* ---------------- Labellings ---------------- */

  /** A partial cycle labelling: every labelled vertex carries no self loop, is
      labelled with the smallest vertex of its cycle, which labels itself,
      lies on that vertex's traversal, and shares its label with both its
      black and its grey neighbour. */
  predicate Closed(grey: seq<int>, lbl: seq<int>) {
    && GreyGraph(grey) && |lbl| == |grey|
    && forall v :: 0 <= v < |grey| ==> ClosedAt(grey, lbl, v)
  }

  predicate ClosedAt(grey: seq<int>, lbl: seq<int>, v: int)
    requires GreyGraph(grey) && |lbl| == |grey| && 0 <= v < |grey|
  {
    lbl[v] != -1 ==>
      && grey[v] != -1 && 0 <= lbl[v] <= v
      && lbl[lbl[v]] == lbl[v]
      && grey[lbl[v]] != -1 && OnCycle(grey, lbl[v], v)
      && 0 <= Mate(v) < |grey| && lbl[Mate(v)] == lbl[v]
      && 0 <= grey[v] < |grey| && lbl[grey[v]] == lbl[v]
  }

  /** The scan has handled every vertex below i: those without a self loop
      are labelled, and only vertices below i are used as labels. */
  predicate DoneBelow(grey: seq<int>, lbl: seq<int>, i: int) {
    && |lbl| == |grey|
    && (forall v :: 0 <= v < |grey| && lbl[v] != -1 ==> lbl[v] < i)
    && (forall v :: 0 <= v < i && v < |grey| && grey[v] != -1 ==> lbl[v] != -1)
  }

  /** The number of vertices below m that label themselves: the cycle starts. */
  function Roots(lbl: seq<int>, m: int): (c: nat)
    requires 0 <= m <= |lbl|
    ensures c <= m
  {
    if m == 0 then 0 else Roots(lbl, m - 1) + (if lbl[m - 1] == m - 1 then 1 else 0)
  }

  lemma {:induction false} RootsPrefix(a: seq<int>, b: seq<int>, m: int)
    requires 0 <= m <= |a| && m <= |b|
    requires forall v :: 0 <= v < m ==> a[v] == b[v]
    ensures Roots(a, m) == Roots(b, m)
  {
    if m > 0 {
      RootsPrefix(a, b, m - 1);
    }
  }

  /** A labelled vertex propagates its label along the traversal. */
  lemma {:induction false} LabelPropagates(grey: seq<int>, lbl: seq<int>, r: int, j: nat, m: nat)
    requires Closed(grey, lbl) && 0 <= r < |grey| && grey[r] != -1
    requires j <= m && lbl[Iter(grey, r, j)] != -1
    ensures lbl[Iter(grey, r, m)] == lbl[Iter(grey, r, j)]
    decreases m - j
  {
    if j < m {
      var x := Iter(grey, r, j);
      MateFacts(x, |grey|);
      assert ClosedAt(grey, lbl, x);
      assert ClosedAt(grey, lbl, Mate(x));
      assert Iter(grey, r, j + 1) == grey[Mate(x)];
      LabelPropagates(grey, lbl, r, j + 1, m);
    }
  }

  /** A traversal from an unlabelled vertex meets only unlabelled vertices. */
  lemma OrbitUnlabelled(grey: seq<int>, lbl: seq<int>, r: int, k: nat, v: int)
    requires Closed(grey, lbl) && 0 <= r < |grey| && grey[r] != -1
    requires lbl[r] == -1 && Iter(grey, r, k) == r
    requires Traced(grey, r, k, v)
    ensures 0 <= v < |grey| && lbl[v] == -1
  {
    var j :| 0 <= j <= k && (v == Iter(grey, r, j) || (j < k && v == Mate(Iter(grey, r, j))));
    var x := Iter(grey, r, j);
    MateFacts(x, |grey|);
    assert ClosedAt(grey, lbl, v);
    if lbl[x] != -1 {
      LabelPropagates(grey, lbl, r, j, k);
    }
  }

  /** Completing the traversal from i extends a closed labelling below i to a
      closed labelling below i+1 in which i is a new root. */
  lemma TraceComplete(grey: seq<int>, old0: seq<int>, new0: seq<int>, i: int, k: nat)
    requires Closed(grey, old0) && DoneBelow(grey, old0, i)
    requires 0 <= i < |grey| && grey[i] != -1 && old0[i] == -1
    requires 1 <= k <= |grey| && Iter(grey, i, k) == i
    requires |new0| == |grey|
    requires forall v :: 0 <= v < |grey| ==> new0[v] == if Traced(grey, i, k, v) then i else old0[v]
    ensures Closed(grey, new0) && DoneBelow(grey, new0, i + 1)
    ensures forall v :: 0 <= v < i ==> new0[v] == old0[v]
    ensures new0[i] == i
  {
    var n := |grey|;
    assert Traced(grey, i, k, i) by {
      assert i == Iter(grey, i, 0);
    }
    forall v | 0 <= v < n
      ensures ClosedAt(grey, new0, v)
      ensures v < i ==> new0[v] == old0[v]
      ensures new0[v] != -1 ==> new0[v] < i + 1
    {
      TraceCompleteAt(grey, old0, new0, i, k, v);
    }
  }

  /** TraceComplete at one vertex v. */
  lemma TraceCompleteAt(grey: seq<int>, old0: seq<int>, new0: seq<int>, i: int, k: nat, v: int)
    requires Closed(grey, old0) && DoneBelow(grey, old0, i)
    requires 0 <= i < |grey| && grey[i] != -1 && old0[i] == -1
    requires 1 <= k <= |grey| && Iter(grey, i, k) == i
    requires |new0| == |grey|
    requires forall v :: 0 <= v < |grey| ==> new0[v] == if Traced(grey, i, k, v) then i else old0[v]
    requires Traced(grey, i, k, i) && 0 <= v < |grey|
    ensures ClosedAt(grey, new0, v)
    ensures v < i ==> new0[v] == old0[v]
    ensures new0[v] != -1 ==> new0[v] < i + 1
  {
    var n := |grey|;
    if Traced(grey, i, k, v) {
      OrbitUnlabelled(grey, old0, i, k, v);
      TracedClosed(grey, i, k, v);
      TracedVertex(grey, new0, i, k, v);
    } else if old0[v] != -1 {
      assert ClosedAt(grey, old0, v);
      MateFacts(v, n);
      var others := [Mate(v), grey[v], old0[v]];
      forall x | x in others
        ensures !Traced(grey, i, k, x)
      {
        if Traced(grey, i, k, x) {
          OrbitUnlabelled(grey, old0, i, k, x);
        }
      }
      UntracedVertex(grey, old0, new0, v);
    }
  }

  /** A vertex met by the traversal from i satisfies the closure conditions
      once its neighbours and i itself carry label i. */
  lemma TracedVertex(grey: seq<int>, new0: seq<int>, i: int, k: nat, v: int)
    requires GreyGraph(grey) && |new0| == |grey|
    requires 0 <= i <= v < |grey| && grey[i] != -1 && grey[v] != -1
    requires OnCycle(grey, i, v)
    requires GreyAt(grey, v)
    requires new0[v] == i && new0[i] == i
    requires new0[Mate(v)] == i && new0[grey[v]] == i
    ensures ClosedAt(grey, new0, v)
  {
  }

  /** A vertex untouched by the traversal keeps its closure conditions when
      its neighbours and its label keep their labels. */
  lemma UntracedVertex(grey: seq<int>, old0: seq<int>, new0: seq<int>, v: int)
    requires GreyGraph(grey) && |old0| == |grey| && |new0| == |grey|
    requires 0 <= v < |grey| && old0[v] != -1 && ClosedAt(grey, old0, v)
    requires new0[v] == old0[v] && new0[Mate(v)] == old0[Mate(v)]
    requires new0[grey[v]] == old0[grey[v]] && new0[old0[v]] == old0[old0[v]]
    ensures ClosedAt(grey, new0, v)
  {
  }

  /** The vertices of a completed traversal are closed under black and grey
      edges, lie at or above an unlabelled start, and lie on its cycle. */
  lemma TracedClosed(grey: seq<int>, r: int, k: nat, v: int)
    requires GreyGraph(grey) && 0 <= r < |grey| && grey[r] != -1
    requires 1 <= k <= |grey| && Iter(grey, r, k) == r
    requires Traced(grey, r, k, v)
    ensures 0 <= v < |grey| && grey[v] != -1
    ensures 0 <= Mate(v) < |grey| && Traced(grey, r, k, Mate(v))
    ensures Traced(grey, r, k, grey[v])
    ensures OnCycle(grey, r, v)
  {
    var j :| 0 <= j <= k && (v == Iter(grey, r, j) || (j < k && v == Mate(Iter(grey, r, j))));
    if v == Iter(grey, r, j) {
      TracedEnd(grey, r, k, j);
    } else {
      TracedMate(grey, r, k, j);
    }
  }

  /** The end of step j: its black neighbour starts step j (or step 0 when
      j = k), its grey neighbour is the black neighbour of step j - 1's end. */
  lemma TracedEnd(grey: seq<int>, r: int, k: nat, j: nat)
    requires GreyGraph(grey) && 0 <= r < |grey| && grey[r] != -1
    requires 1 <= k <= |grey| && Iter(grey, r, k) == r && j <= k
    ensures var v := Iter(grey, r, j);
      && 0 <= Mate(v) < |grey| && Traced(grey, r, k, Mate(v))
      && Traced(grey, r, k, grey[v]) && OnCycle(grey, r, v)
  {
    var n := |grey|;
    var v := Iter(grey, r, j);
    MateFacts(v, n);
    var j' := if j == k then 0 else j;
    assert v == Iter(grey, r, j') && j' < k;
    assert Traced(grey, r, k, Mate(v));
    var jp: nat := if j == 0 then k - 1 else j - 1;
    IterSucc(grey, r, jp);
    assert v == Iter(grey, r, jp + 1);
    var y := Iter(grey, r, jp);
    MateFacts(y, n);
    assert GreyAt(grey, Mate(y));
    assert grey[v] == Mate(y) && jp < k;
    assert Traced(grey, r, k, grey[v]);
  }

  lemma IterSucc(grey: seq<int>, r: int, m: nat)
    requires GreyGraph(grey) && 0 <= r < |grey| && grey[r] != -1
    ensures 0 <= Mate(Iter(grey, r, m)) < |grey|
    ensures Iter(grey, r, m + 1) == grey[Mate(Iter(grey, r, m))]
  {
    MateFacts(Iter(grey, r, m), |grey|);
  }

  /** The black neighbour of step j's end, j < k: its grey neighbour ends
      step j + 1. */
  lemma TracedMate(grey: seq<int>, r: int, k: nat, j: nat)
    requires GreyGraph(grey) && 0 <= r < |grey| && grey[r] != -1
    requires 1 <= k <= |grey| && Iter(grey, r, k) == r && j < k
    ensures var x := Iter(grey, r, j);
      && 0 <= Mate(x) < |grey| && grey[Mate(x)] != -1
      && Mate(Mate(x)) == x && Traced(grey, r, k, x)
      && Traced(grey, r, k, grey[Mate(x)]) && OnCycle(grey, r, Mate(x))
  {
    var x := Iter(grey, r, j);
    MateFacts(x, |grey|);
    assert GreyAt(grey, x);
    assert grey[Mate(x)] == Iter(grey, r, j + 1);
    assert Traced(grey, r, k, x);
    assert Traced(grey, r, k, grey[Mate(x)]);
  }

  /** One pass of the traversal loop marks the black neighbour of the current
      vertex and the vertex after it. */
  lemma TraceStep(grey: seq<int>, old0: seq<int>, lbl: seq<int>, i: int, k: nat)
    requires GreyGraph(grey) && 0 <= i < |grey| && grey[i] != -1
    requires |old0| == |grey| && |lbl| == |grey|
    requires forall v :: 0 <= v < |grey| ==> lbl[v] == if Traced(grey, i, k, v) then i else old0[v]
    ensures 0 <= Mate(Iter(grey, i, k)) < |grey|
    ensures Step(grey, Iter(grey, i, k)) == Iter(grey, i, k + 1)
    ensures var lbl' := lbl[Mate(Iter(grey, i, k)) := i][Iter(grey, i, k + 1) := i];
      forall v :: 0 <= v < |grey| ==> lbl'[v] == if Traced(grey, i, k + 1, v) then i else old0[v]
  {
    var x := Iter(grey, i, k);
    MateFacts(x, |grey|);
    var lbl' := lbl[Mate(x) := i][Iter(grey, i, k + 1) := i];
    forall v | 0 <= v < |grey|
      ensures lbl'[v] == if Traced(grey, i, k + 1, v) then i else old0[v]
    {
      TracedSucc(grey, i, k, v);
    }
  }

  /** The do-while loop of `num_cycles`: the traversal from an unlabelled
      vertex i labels with i every vertex it meets until it is back at i. */
  method Trace(grey: seq<int>, old0: seq<int>, i: int) returns (lbl: seq<int>, ghost steps: nat)
    requires GreyGraph(grey) && |old0| == |grey|
    requires 0 <= i < |grey| && grey[i] != -1
    ensures 1 <= steps <= |grey| && Iter(grey, i, steps) == i
    ensures |lbl| == |grey|
    ensures forall v :: 0 <= v < |grey| ==> lbl[v] == if Traced(grey, i, steps, v) then i else old0[v]
  {
    Returns(grey, i);
    ghost var bound :| 1 <= bound <= |grey| && Iter(grey, i, bound) == i;
    lbl := old0[i := i];
    var next := i;
    steps := 0;
    var first := true;
    while first || next != i
      invariant steps <= bound && (first <==> steps == 0)
      invariant next == Iter(grey, i, steps)
      invariant |lbl| == |grey|
      invariant forall v :: 0 <= v < |grey| ==> lbl[v] == if Traced(grey, i, steps, v) then i else old0[v]
      decreases bound - steps
    {
      TraceStep(grey, old0, lbl, i, steps);
      next := Mate(next);
      lbl := lbl[next := i];
      next := grey[next];
      lbl := lbl[next := i];
      steps := steps + 1;
      first := false;
    }
  }

  /** A completed traversal from i adds i as one new root. */
  lemma TraceAdvances(grey: seq<int>, old0: seq<int>, new0: seq<int>, i: int, k: nat)
    requires Closed(grey, old0) && DoneBelow(grey, old0, i)
    requires 0 <= i < |grey| && grey[i] != -1 && old0[i] == -1
    requires 1 <= k <= |grey| && Iter(grey, i, k) == i
    requires |new0| == |grey|
    requires forall v :: 0 <= v < |grey| ==> new0[v] == if Traced(grey, i, k, v) then i else old0[v]
    ensures Closed(grey, new0) && DoneBelow(grey, new0, i + 1)
    ensures Roots(new0, i + 1) == Roots(old0, i) + 1
  {
    TraceComplete(grey, old0, new0, i, k);
    RootsPrefix(old0, new0, i);
  }

  /** A vertex that is already labelled or a self loop adds no root. */
  lemma SkipAdvances(grey: seq<int>, lbl: seq<int>, i: int)
    requires Closed(grey, lbl) && DoneBelow(grey, lbl, i)
    requires 0 <= i < |grey| && !(lbl[i] == -1 && grey[i] != -1)
    ensures DoneBelow(grey, lbl, i + 1)
    ensures Roots(lbl, i + 1) == Roots(lbl, i)
  {
    assert ClosedAt(grey, lbl, i);
  }

  /** Once every vertex is handled, exactly the self loops are unlabelled. */
  lemma LabelledExactly(grey: seq<int>, lbl: seq<int>)
    requires Closed(grey, lbl) && DoneBelow(grey, lbl, |grey|)
    ensures forall v :: 0 <= v < |grey| ==> (lbl[v] == -1 <==> grey[v] == -1)
  {
    forall v | 0 <= v < |grey|
      ensures lbl[v] == -1 <==> grey[v] == -1
    {
      assert ClosedAt(grey, lbl, v);
    }
  }

  /** `num_cycles`: the grey edges, then one traversal from every vertex that
      is neither labelled yet nor a self loop; c counts the traversals. The
      labels the source leaves unwritten (self loops) are -1 here. */
  method NumCycles(perm: seq<int>) returns (c: int, grey: seq<int>, lbl: seq<int>)
    requires IsExtended(perm)
    ensures IsPermutation(perm) && grey == GreyEdgesOf(perm)
    ensures Closed(grey, lbl)
    ensures forall v :: 0 <= v < |grey| ==> (lbl[v] == -1 <==> grey[v] == -1)
    ensures c == Roots(lbl, |lbl|)
  {
    grey := GreyEdges(perm);
    GreyIsGraph(perm);
    var size := |perm|;
    lbl := seq(size, _ => -1);
    c := 0;
    var i := 0;
    while i < size
      invariant 0 <= i <= size
      invariant Closed(grey, lbl) && DoneBelow(grey, lbl, i)
      invariant c == Roots(lbl, i)
    {
      lbl, c := Visit(grey, lbl, c, i);
      i := i + 1;
    }
    LabelledExactly(grey, lbl);
  }

  /** One step of the outer loop of `num_cycles`: a vertex that is unlabelled
      and not a self loop starts a new cycle, traversed and counted; any
      other vertex is passed over. */
  method Visit(grey: seq<int>, lbl: seq<int>, c: int, i: int) returns (lbl1: seq<int>, c1: int)
    requires GreyGraph(grey) && Closed(grey, lbl) && DoneBelow(grey, lbl, i)
    requires 0 <= i < |grey| && c == Roots(lbl, i)
    ensures Closed(grey, lbl1) && DoneBelow(grey, lbl1, i + 1)
    ensures c1 == Roots(lbl1, i + 1)
  {
    if lbl[i] == -1 && grey[i] != -1 {
      ghost var steps;
      lbl1, steps := Trace(grey, lbl, i);
      TraceAdvances(grey, lbl, lbl1, i, steps);
      c1 := c + 1;
    } else {
      SkipAdvances(grey, lbl, i);
      lbl1, c1 := lbl, c;
    }
  }

  /** In a complete labelling, the vertices labelled with a root r are
      exactly the vertices of the cycle traversed from r. */
  lemma CycleIsLabelClass(grey: seq<int>, lbl: seq<int>, r: int, v: int)
    requires Closed(grey, lbl) && 0 <= r < |grey| && lbl[r] == r && 0 <= v < |grey|
    ensures grey[r] != -1
    ensures OnCycle(grey, r, v) <==> lbl[v] == r
  {
    assert ClosedAt(grey, lbl, r);
    if OnCycle(grey, r, v) {
      var j :| 0 <= j <= |grey| && (v == Iter(grey, r, j) || v == Mate(Iter(grey, r, j)));
      LabelPropagates(grey, lbl, r, 0, j);
      assert ClosedAt(grey, lbl, Iter(grey, r, j));
    }
    if lbl[v] == r {
      assert ClosedAt(grey, lbl, v);
    }
  }

  /** Each root is the smallest vertex of its cycle. */
  lemma RootIsLeast(grey: seq<int>, lbl: seq<int>, r: int, v: int)
    requires Closed(grey, lbl) && 0 <= r < |grey| && lbl[r] == r && 0 <= v < |grey|
    requires grey[r] != -1 && OnCycle(grey, r, v)
    ensures r <= v
  {
    CycleIsLabelClass(grey, lbl, r, v);
    assert ClosedAt(grey, lbl, v);
  }

  /** The identity has only self loops. */
  lemma IdentityLoops(n: nat, p: int)
    requires n % 2 == 0 && 0 <= p < n
    ensures IsPermutation(Identity(n)) && Grey(Identity(n), p) == -1
  {
    var perm := Identity(n);
    assert Distinct(perm) by {
      forall a, b | 0 <= a < b < n
        ensures perm[a] != perm[b]
      {
      }
    }
    MateFacts(p, n);
  }

  /** Without grey edges a closed labelling has no roots. */
  lemma {:induction false} NoEdgesNoRoots(grey: seq<int>, lbl: seq<int>, m: int)
    requires Closed(grey, lbl) && 0 <= m <= |grey|
    requires forall v :: 0 <= v < |grey| ==> grey[v] == -1
    ensures Roots(lbl, m) == 0
  {
    if m > 0 {
      assert ClosedAt(grey, lbl, m - 1);
      NoEdgesNoRoots(grey, lbl, m - 1);
    }
  }
}
