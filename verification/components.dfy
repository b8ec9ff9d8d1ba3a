/**
 Connected components of the interleaving graph of cycles
 (`connected_component` in ext/libd/invdist.cpp).

 Each cycle of the breakpoint graph spans the interval from its root (its
 smallest vertex) to its last vertex. A left-to-right scan keeps a stack of
 open components; a vertex whose cycle began below the top of the stack
 merges every component above its cycle's component into it, and a
 component whose interval ends at the current vertex is closed and
 recorded. The union-find forest this builds is then turned into one linked
 list per component, and walking each list writes the component index into
 cc.
 */
module Components {
  import opened Counting
  import opened Graph
  import opened Cycles
  import opened Interleaving

  /** A complete cycle labelling, as `num_cycles` leaves it. */
  predicate Labelled(grey: seq<int>, lbl: seq<int>) {
    && Closed(grey, lbl)
    && forall v :: 0 <= v < |grey| ==> (lbl[v] == -1 <==> grey[v] == -1)
  }

  /** c is the root of its cycle. */
  predicate CycleRoot(lbl: seq<int>, c: int) {
    0 <= c < |lbl| && lbl[c] == c
  }

  /** Two complete labellings of the same grey edges are equal: both name
      every cycle by its least vertex. */
  lemma LabellingUnique(grey: seq<int>, lbl1: seq<int>, lbl2: seq<int>)
    requires Labelled(grey, lbl1) && Labelled(grey, lbl2)
    ensures lbl1 == lbl2
  {
    forall v | 0 <= v < |grey|
      ensures lbl1[v] == lbl2[v]
    {
      if grey[v] != -1 {
        RootBelow(grey, lbl1, lbl2, v);
        RootBelow(grey, lbl2, lbl1, v);
      }
    }
  }

  /** The root one labelling gives v is a vertex of v's cycle, so another
      labelling's root for v is at or below it. */
  lemma RootBelow(grey: seq<int>, lbl1: seq<int>, lbl2: seq<int>, v: int)
    requires Labelled(grey, lbl1) && Labelled(grey, lbl2) && 0 <= v < |grey| && grey[v] != -1
    ensures lbl1[v] <= lbl2[v]
  {
    assert ClosedAt(grey, lbl2, v);
    var r := lbl2[v];
    assert ClosedAt(grey, lbl1, r);
    var k :| 0 <= k <= |grey| && (v == Iter(grey, r, k) || v == Mate(Iter(grey, r, k)));
    LabelPropagates(grey, lbl1, r, 0, k);
    assert ClosedAt(grey, lbl1, Iter(grey, r, k));
  }

  /* ---------------- Cycle ends ---------------- */

  /** rng[c] is the last vertex below i labelled c. */
  predicate LastBelow(lbl: seq<int>, rng: seq<int>, c: int, i: int)
    requires 0 <= c < |lbl| == |rng|
  {
    && 0 <= rng[c] < i && i <= |lbl| && lbl[rng[c]] == c
    && forall v :: rng[c] < v < i ==> lbl[v] != c
  }

  /** The end of cycle c: its largest vertex. */
  predicate CycleEnd(lbl: seq<int>, rng: seq<int>, c: int)
    requires 0 <= c < |lbl| == |rng|
  {
    LastBelow(lbl, rng, c, |lbl|)
  }

  /** rng holds the end of every cycle at the cycle's root. */
  predicate Ends(lbl: seq<int>, rng: seq<int>) {
    |rng| == |lbl| && forall c :: 0 <= c < |lbl| && CycleRoot(lbl, c) ==> CycleEnd(lbl, rng, c)
  }

  /** The first loop of `connected_component`: range[cycle[i]] = i for every
      vertex that is not a self loop, so each root ends up with the last
      vertex of its cycle. Entries of other vertices stay -1 here; the
      source leaves them as they were. */
  method CycleEnds(grey: seq<int>, lbl: seq<int>) returns (rng: seq<int>)
    requires Labelled(grey, lbl)
    ensures Ends(lbl, rng)
  {
    var size := |grey|;
    rng := seq(size, _ => -1);
    var i := 0;
    while i < size
      invariant 0 <= i <= size && |rng| == size
      invariant forall c :: CycleRoot(lbl, c) && c < i ==> LastBelow(lbl, rng, c, i)
    {
      assert ClosedAt(grey, lbl, i);
      if grey[i] != -1 {
        rng := rng[lbl[i] := i];
      }
      forall c | CycleRoot(lbl, c) && c < i + 1
        ensures LastBelow(lbl, rng, c, i + 1)
      {
      }
      i := i + 1;
    }
  }

  /** A cycle ends strictly after its root: the root's black neighbour is on
      the cycle and above it. */
  lemma EndAfterRoot(grey: seq<int>, lbl: seq<int>, rng: seq<int>, c: int)
    requires Labelled(grey, lbl) && Ends(lbl, rng) && CycleRoot(lbl, c)
    ensures grey[c] != -1 && c < rng[c]
  {
    assert ClosedAt(grey, lbl, c);
    assert ClosedAt(grey, lbl, Mate(c));
  }

  /** Every labelled vertex lies between its root and its cycle's end. */
  lemma WithinCycle(grey: seq<int>, lbl: seq<int>, rng: seq<int>, v: int)
    requires Labelled(grey, lbl) && Ends(lbl, rng) && 0 <= v < |grey| && grey[v] != -1
    ensures CycleRoot(lbl, lbl[v]) && lbl[v] <= v <= rng[lbl[v]]
  {
    assert ClosedAt(grey, lbl, v);
    assert CycleEnd(lbl, rng, lbl[v]);
  }

  /* ---------------- The union-find forest ---------------- */

  /** parent points from every vertex that is not a self loop to a vertex at
      or below it that is not a self loop either. */
  predicate Forest(grey: seq<int>, parent: seq<int>) {
    && |parent| == |grey|
    && forall v :: 0 <= v < |grey| && grey[v] != -1 ==> ParentAt(grey, parent, v)
  }

  predicate ParentAt(grey: seq<int>, parent: seq<int>, v: int)
    requires 0 <= v < |grey| == |parent|
  {
    0 <= parent[v] <= v && grey[parent[v]] != -1
  }

  /** The root of v's tree. */
  function Find(grey: seq<int>, parent: seq<int>, v: int): (r: int)
    requires Forest(grey, parent) && 0 <= v < |grey| && grey[v] != -1
    ensures 0 <= r <= v && grey[r] != -1 && parent[r] == r
    decreases v
  {
    assert ParentAt(grey, parent, v);
    if parent[v] == v then v else Find(grey, parent, parent[v])
  }

  /* ---------------- The stack scan ---------------- */

  /** Vertices not yet scanned, and vertices that are not cycle roots, still
      have their cycle root as parent. */
  ghost predicate Parents(grey: seq<int>, lbl: seq<int>, parent: seq<int>, i: int) {
    && Forest(grey, parent) && |lbl| == |grey|
    && forall v :: 0 <= v < |grey| && grey[v] != -1 && (i <= v || lbl[v] != v) ==> parent[v] == lbl[v]
  }

  predicate Increasing(s: seq<int>) {
    forall a, b :: 0 <= a < b < |s| ==> s[a] < s[b]
  }

  /** Stack entry k: an open component whose root is below i, whose range
      reaches past i and is the end of its member cycle wit[k]. */
  ghost predicate StackAt(grey: seq<int>, lbl: seq<int>, rng: seq<int>, parent: seq<int>,
                          roots: seq<int>, ranges: seq<int>, wit: seq<int>, k: int, i: int)
    requires Forest(grey, parent) && |rng| == |grey|
    requires 0 <= k < |roots| == |ranges| == |wit|
  {
    && 0 <= roots[k] < i <= |grey| && grey[roots[k]] != -1 && parent[roots[k]] == roots[k]
    && ranges[k] >= i
    && 0 <= wit[k] < i && grey[wit[k]] != -1 && CycleRoot(lbl, wit[k])
    && Find(grey, parent, wit[k]) == roots[k] && rng[wit[k]] == ranges[k]
  }

  ghost predicate Stack(grey: seq<int>, lbl: seq<int>, rng: seq<int>, parent: seq<int>,
                        roots: seq<int>, ranges: seq<int>, wit: seq<int>, i: int)
    requires Forest(grey, parent) && |rng| == |grey|
  {
    && |roots| == |ranges| == |wit| && Increasing(roots)
    && forall k :: 0 <= k < |roots| ==> StackAt(grey, lbl, rng, parent, roots, ranges, wit, k, i)
  }

  /** The recorded components: distinct tree roots below i, none on the
      stack. */
  ghost predicate Comps(grey: seq<int>, parent: seq<int>, roots: seq<int>, comps: seq<int>, i: int)
    requires |parent| == |grey|
  {
    && (forall a, b :: 0 <= a < b < |comps| ==> comps[a] != comps[b])
    && forall k :: 0 <= k < |comps| ==> CompAt(grey, parent, roots, comps, k, i)
  }

  ghost predicate CompAt(grey: seq<int>, parent: seq<int>, roots: seq<int>, comps: seq<int>, k: int, i: int)
    requires |parent| == |grey| && 0 <= k < |comps|
  {
    && 0 <= comps[k] < i <= |grey| && grey[comps[k]] != -1
    && parent[comps[k]] == comps[k] && comps[k] !in roots
  }

  /** Cycle c, scanned already, belongs either to a recorded component and
      has ended, or to an open one whose range covers it and below the next
      entry's root. */
  ghost predicate MemberAt(grey: seq<int>, lbl: seq<int>, rng: seq<int>, parent: seq<int>,
                           roots: seq<int>, ranges: seq<int>, comps: seq<int>, c: int, i: int)
    requires Forest(grey, parent) && |rng| == |grey| && |roots| == |ranges|
    requires 0 <= c < |grey| && grey[c] != -1
  {
    var r := Find(grey, parent, c);
    && (r in comps ==> rng[c] < i)
    && (r in comps || r in roots)
    && forall k :: 0 <= k < |roots| && roots[k] == r ==>
         rng[c] <= ranges[k] && (k + 1 == |roots| || c < roots[k + 1])
  }

  ghost predicate Members(grey: seq<int>, lbl: seq<int>, rng: seq<int>, parent: seq<int>,
                          roots: seq<int>, ranges: seq<int>, comps: seq<int>, i: int)
    requires Labelled(grey, lbl) && Forest(grey, parent) && |rng| == |grey| && |roots| == |ranges|
  {
    forall c :: 0 <= c < i && CycleRoot(lbl, c) ==> MemberOf(grey, lbl, rng, parent, roots, ranges, comps, c, i)
  }

  /** MemberAt for a cycle root, which is never a self loop. */
  ghost predicate MemberOf(grey: seq<int>, lbl: seq<int>, rng: seq<int>, parent: seq<int>,
                           roots: seq<int>, ranges: seq<int>, comps: seq<int>, c: int, i: int)
    requires Labelled(grey, lbl) && Forest(grey, parent) && |rng| == |grey| && |roots| == |ranges|
    requires CycleRoot(lbl, c)
  {
    assert ClosedAt(grey, lbl, c);
    MemberAt(grey, lbl, rng, parent, roots, ranges, comps, c, i)
  }

  /** The state of the scan before vertex i. */
  ghost predicate ScanInv(grey: seq<int>, lbl: seq<int>, rng: seq<int>, parent: seq<int>,
                          roots: seq<int>, ranges: seq<int>, wit: seq<int>, comps: seq<int>, i: int)
  {
    && Labelled(grey, lbl) && Ends(lbl, rng) && 0 <= i <= |grey|
    && Parents(grey, lbl, parent, i)
    && Stack(grey, lbl, rng, parent, roots, ranges, wit, i)
    && Comps(grey, parent, roots, comps, i)
    && Members(grey, lbl, rng, parent, roots, ranges, comps, i)
  }

  /** Before the scan every vertex is its cycle root's child and nothing is
      open or recorded. */
  lemma ScanInit(grey: seq<int>, lbl: seq<int>, rng: seq<int>)
    requires Labelled(grey, lbl) && Ends(lbl, rng)
    ensures ScanInv(grey, lbl, rng, lbl, [], [], [], [], 0)
  {
    forall v | 0 <= v < |grey| && grey[v] != -1
      ensures ParentAt(grey, lbl, v)
    {
      assert ClosedAt(grey, lbl, v);
    }
  }

  /** A cycle whose end is at or past i, and which does not contain i, ends
      past i. */
  lemma EndPast(grey: seq<int>, lbl: seq<int>, rng: seq<int>, c: int, i: int)
    requires Labelled(grey, lbl) && Ends(lbl, rng) && CycleRoot(lbl, c)
    requires 0 <= i < |grey| && rng[c] >= i && lbl[i] != c
    ensures rng[c] >= i + 1
  {
    assert CycleEnd(lbl, rng, c);
  }

  /** Scanning a self loop changes nothing. */
  lemma ScanSkip(grey: seq<int>, lbl: seq<int>, rng: seq<int>, parent: seq<int>,
                 roots: seq<int>, ranges: seq<int>, wit: seq<int>, comps: seq<int>, i: int)
    requires ScanInv(grey, lbl, rng, parent, roots, ranges, wit, comps, i)
    requires i < |grey| && grey[i] == -1
    ensures ScanInv(grey, lbl, rng, parent, roots, ranges, wit, comps, i + 1)
  {
    var j := i + 1;
    forall k | 0 <= k < |roots|
      ensures StackAt(grey, lbl, rng, parent, roots, ranges, wit, k, j)
    {
      assert StackAt(grey, lbl, rng, parent, roots, ranges, wit, k, i);
      EndPast(grey, lbl, rng, wit[k], i);
    }
    forall k | 0 <= k < |comps|
      ensures CompAt(grey, parent, roots, comps, k, j)
    {
      assert CompAt(grey, parent, roots, comps, k, i);
    }
    forall c | 0 <= c < j && CycleRoot(lbl, c)
      ensures MemberOf(grey, lbl, rng, parent, roots, ranges, comps, c, j)
    {
      assert MemberOf(grey, lbl, rng, parent, roots, ranges, comps, c, i);
    }
  }

  /** Scanning a cycle root opens a component for its cycle. */
  lemma ScanPush(grey: seq<int>, lbl: seq<int>, rng: seq<int>, parent: seq<int>,
                 roots: seq<int>, ranges: seq<int>, wit: seq<int>, comps: seq<int>, i: int)
    requires ScanInv(grey, lbl, rng, parent, roots, ranges, wit, comps, i)
    requires i < |grey| && grey[i] != -1 && parent[i] == i
    ensures CycleRoot(lbl, i)
    ensures ScanInv(grey, lbl, rng, parent, roots + [i], ranges + [rng[i]], wit + [i], comps, i + 1)
  {
    var roots', ranges', wit' := roots + [i], ranges + [rng[i]], wit + [i];
    var j := i + 1;
    EndAfterRoot(grey, lbl, rng, i);
    forall k | 0 <= k < |roots'|
      ensures StackAt(grey, lbl, rng, parent, roots', ranges', wit', k, j)
    {
      if k < |roots| {
        assert StackAt(grey, lbl, rng, parent, roots, ranges, wit, k, i);
        EndPast(grey, lbl, rng, wit[k], i);
      }
    }
    forall a, b | 0 <= a < b < |roots'|
      ensures roots'[a] < roots'[b]
    {
      assert StackAt(grey, lbl, rng, parent, roots, ranges, wit, a, i);
    }
    forall k | 0 <= k < |comps|
      ensures CompAt(grey, parent, roots', comps, k, j)
    {
      assert CompAt(grey, parent, roots, comps, k, i);
    }
    forall c | 0 <= c < j && CycleRoot(lbl, c)
      ensures MemberOf(grey, lbl, rng, parent, roots', ranges', comps, c, j)
    {
      PushMember(grey, lbl, rng, parent, roots, ranges, wit, comps, i, c);
    }
  }

  lemma PushMember(grey: seq<int>, lbl: seq<int>, rng: seq<int>, parent: seq<int>,
                   roots: seq<int>, ranges: seq<int>, wit: seq<int>, comps: seq<int>, i: int, c: int)
    requires ScanInv(grey, lbl, rng, parent, roots, ranges, wit, comps, i)
    requires i < |grey| && grey[i] != -1 && parent[i] == i
    requires 0 <= c <= i && CycleRoot(lbl, c)
    ensures MemberOf(grey, lbl, rng, parent, roots + [i], ranges + [rng[i]], comps, c, i + 1)
  {
    var roots', ranges' := roots + [i], ranges + [rng[i]];
    assert ClosedAt(grey, lbl, c);
    var r := Find(grey, parent, c);
    if c < i {
      assert MemberOf(grey, lbl, rng, parent, roots, ranges, comps, c, i);
      assert MemberAt(grey, lbl, rng, parent, roots, ranges, comps, c, i);
      forall k | 0 <= k < |roots'| && roots'[k] == r
        ensures rng[c] <= ranges'[k] && (k + 1 == |roots'| || c < roots'[k + 1])
      {
        assert k < |roots|;
      }
      assert MemberAt(grey, lbl, rng, parent, roots', ranges', comps, c, i + 1);
    } else {
      assert r == i;
      forall k | 0 <= k < |comps|
        ensures comps[k] < i
      {
        assert CompAt(grey, parent, roots, comps, k, i);
      }
      forall k | 0 <= k < |roots|
        ensures roots[k] < i
      {
        assert StackAt(grey, lbl, rng, parent, roots, ranges, wit, k, i);
      }
      assert MemberAt(grey, lbl, rng, parent, roots', ranges', comps, c, i + 1);
    }
  }

  /* ---------------- Merging at a vertex inside an open cycle ---------------- */

  /** The largest of x and the elements of xs. */
  function MaxOf(x: int, xs: seq<int>): (m: int)
    ensures x <= m && forall j :: 0 <= j < |xs| ==> xs[j] <= m
  {
    if xs == [] then x
    else
      var t := MaxOf(x, xs[1..]);
      if t < xs[0] then xs[0] else t
  }

  /** Where MaxOf(x, xs) is attained: -1 for x itself. */
  function MaxIndex(x: int, xs: seq<int>): (j: int)
    ensures -1 <= j < |xs|
    ensures MaxOf(x, xs) == if j == -1 then x else xs[j]
  {
    if xs == [] then -1
    else
      var t := MaxIndex(x, xs[1..]);
      if MaxOf(x, xs[1..]) < xs[0] then 0 else if t == -1 then -1 else t + 1
  }

  /** The parent array once the entries above s are merged: their roots hang
      below c0. */
  ghost predicate MergedParents(parent: seq<int>, parent1: seq<int>, roots: seq<int>, s: int, c0: int)
    requires 0 <= s < |roots|
  {
    && |parent1| == |parent|
    && forall v :: 0 <= v < |parent| ==> parent1[v] == if v in roots[s + 1..] then c0 else parent[v]
  }

  /** The situation of the merge at vertex i: i lies on a cycle rooted at
      c0 = parent[i] < i, whose component is open at stack entry s. */
  ghost predicate MergeCase(grey: seq<int>, lbl: seq<int>, rng: seq<int>, parent: seq<int>,
                            roots: seq<int>, ranges: seq<int>, wit: seq<int>, comps: seq<int>,
                            i: int, s: int, parent1: seq<int>, right: int)
  {
    && ScanInv(grey, lbl, rng, parent, roots, ranges, wit, comps, i)
    && 0 <= i < |grey| && grey[i] != -1 && parent[i] != i
    && 0 <= s < |roots| && roots[s] == Find(grey, parent, parent[i])
    && MergedParents(parent, parent1, roots, s, parent[i])
    && right == MaxOf(i, ranges[s + 1..])
  }

  /** The entry of the component of the cycle through i, and what lies above
      it. */
  lemma MergeSlot(grey: seq<int>, lbl: seq<int>, rng: seq<int>, parent: seq<int>,
                  roots: seq<int>, ranges: seq<int>, wit: seq<int>, comps: seq<int>, i: int)
    requires ScanInv(grey, lbl, rng, parent, roots, ranges, wit, comps, i)
    requires 0 <= i < |grey| && grey[i] != -1 && parent[i] != i
    ensures 0 <= parent[i] < i && grey[parent[i]] != -1 && i !in roots
    ensures Find(grey, parent, parent[i]) in roots
    ensures forall k, k' :: 0 <= k < k' < |roots| && roots[k] == Find(grey, parent, parent[i]) ==>
      parent[i] < roots[k']
  {
    var c0 := lbl[i];
    MergeParent(grey, lbl, rng, parent, roots, ranges, wit, comps, i);
    StackBelow(grey, lbl, rng, parent, roots, ranges, wit, i);
    assert MemberOf(grey, lbl, rng, parent, roots, ranges, comps, c0, i);
    OpenEntry(grey, lbl, rng, parent, roots, ranges, comps, c0, i);
  }

  /** The vertex i, not a cycle root, still hangs below its cycle's root. */
  lemma MergeParent(grey: seq<int>, lbl: seq<int>, rng: seq<int>, parent: seq<int>,
                    roots: seq<int>, ranges: seq<int>, wit: seq<int>, comps: seq<int>, i: int)
    requires ScanInv(grey, lbl, rng, parent, roots, ranges, wit, comps, i)
    requires 0 <= i < |grey| && grey[i] != -1 && parent[i] != i
    ensures parent[i] == lbl[i] && 0 <= parent[i] < i && grey[parent[i]] != -1
    ensures CycleRoot(lbl, parent[i])
  {
    assert ClosedAt(grey, lbl, i);
    WithinCycle(grey, lbl, rng, i);
    assert ClosedAt(grey, lbl, lbl[i]);
  }

  /** Every root on the stack lies below i. */
  lemma StackBelow(grey: seq<int>, lbl: seq<int>, rng: seq<int>, parent: seq<int>,
                   roots: seq<int>, ranges: seq<int>, wit: seq<int>, i: int)
    requires Forest(grey, parent) && |rng| == |grey|
    requires Stack(grey, lbl, rng, parent, roots, ranges, wit, i)
    ensures forall k :: 0 <= k < |roots| ==> roots[k] < i
  {
    forall k | 0 <= k < |roots|
      ensures roots[k] < i
    {
      assert StackAt(grey, lbl, rng, parent, roots, ranges, wit, k, i);
    }
  }

  /** The cycle rooted at c0, which contains i, is in an open component, and
      every root above that component's entry lies above c0. */
  lemma OpenEntry(grey: seq<int>, lbl: seq<int>, rng: seq<int>, parent: seq<int>,
                  roots: seq<int>, ranges: seq<int>, comps: seq<int>, c0: int, i: int)
    requires Labelled(grey, lbl) && Forest(grey, parent) && |rng| == |grey| && |roots| == |ranges|
    requires Increasing(roots) && CycleRoot(lbl, c0) && 0 <= c0 < i
    requires c0 <= rng[c0] && i <= rng[c0]
    requires MemberOf(grey, lbl, rng, parent, roots, ranges, comps, c0, i)
    ensures Find(grey, parent, c0) in roots
    ensures forall k, k' :: 0 <= k < k' < |roots| && roots[k] == Find(grey, parent, c0) ==>
      c0 < roots[k']
  {
    assert MemberAt(grey, lbl, rng, parent, roots, ranges, comps, c0, i);
    forall k, k' | 0 <= k < k' < |roots| && roots[k] == Find(grey, parent, c0)
      ensures c0 < roots[k']
    {
      assert c0 < roots[k + 1];
      assert roots[k + 1] <= roots[k'];
    }
  }

  lemma MergedForest(grey: seq<int>, parent: seq<int>, parent1: seq<int>, roots: seq<int>, s: int, c0: int)
    requires Forest(grey, parent) && 0 <= s < |roots|
    requires 0 <= c0 < |grey| && grey[c0] != -1
    requires forall k :: s < k < |roots| ==> c0 < roots[k]
    requires MergedParents(parent, parent1, roots, s, c0)
    ensures Forest(grey, parent1)
  {
    forall v | 0 <= v < |grey| && grey[v] != -1
      ensures ParentAt(grey, parent1, v)
    {
      assert ParentAt(grey, parent, v);
      if v in roots[s + 1..] {
        var k :| s + 1 <= k < |roots| && roots[k] == v;
      }
    }
  }

  /** After the merge, the trees of the entries above s belong to entry s's
      root; every other tree is unchanged. */
  lemma {:induction false} FindMerged(grey: seq<int>, parent: seq<int>, parent1: seq<int>,
                                      roots: seq<int>, s: int, c0: int, v: int)
    requires Forest(grey, parent) && 0 <= s < |roots| && Increasing(roots)
    requires forall k :: 0 <= k < |roots| ==> 0 <= roots[k] < |grey| && parent[roots[k]] == roots[k]
    requires 0 <= c0 < |grey| && grey[c0] != -1 && Find(grey, parent, c0) == roots[s]
    requires forall k :: s < k < |roots| ==> c0 < roots[k]
    requires MergedParents(parent, parent1, roots, s, c0)
    requires 0 <= v < |grey| && grey[v] != -1
    ensures Forest(grey, parent1)
    ensures Find(grey, parent1, v) ==
      if Find(grey, parent, v) in roots[s + 1..] then roots[s] else Find(grey, parent, v)
    decreases v
  {
    MergedForest(grey, parent, parent1, roots, s, c0);
    assert roots[s] !in roots[s + 1..];
    assert ParentAt(grey, parent, v);
    if v in roots[s + 1..] {
      var k :| s + 1 <= k < |roots| && roots[k] == v;
      FindMerged(grey, parent, parent1, roots, s, c0, c0);
    } else if parent[v] != v {
      FindMerged(grey, parent, parent1, roots, s, c0, parent[v]);
    }
  }

  /** The union loop of `connected_component` at a vertex i that is not its
      cycle's root: while the top of the stack has a root above parent[i],
      hang that root below parent[i], fold its range into right and pop it.
      The loop stops at entry s, the first whose root is at most parent[i]. */
  method Merge(parent: seq<int>, roots: seq<int>, ranges: seq<int>, i: int, ghost s: int)
    returns (parent1: seq<int>, roots1: seq<int>, ranges1: seq<int>, right: int)
    requires 0 <= i < |parent| && 0 <= s < |roots| == |ranges| && i !in roots
    requires forall k :: 0 <= k < |roots| ==> 0 <= roots[k] < |parent|
    requires roots[s] <= parent[i]
    requires forall k :: s < k < |roots| ==> parent[i] < roots[k]
    ensures roots1 == roots[..s + 1] && ranges1 == ranges[..s + 1]
    ensures right == MaxOf(i, ranges[s + 1..])
    ensures MergedParents(parent, parent1, roots, s, parent[i])
  {
    parent1, roots1, ranges1 := parent, roots, ranges;
    right := i;
    while roots1[|roots1| - 1] > parent1[i]
      invariant s + 1 <= |roots1| <= |roots|
      invariant roots1 == roots[..|roots1|] && ranges1 == ranges[..|roots1|]
      invariant right == MaxOf(i, ranges[|roots1|..])
      invariant MergedParents(parent, parent1, roots, |roots1| - 1, parent[i])
      decreases |roots1|
    {
      var top := |roots1| - 1;
      assert roots[top..] == [roots[top]] + roots[top + 1..];
      assert ranges[top..][1..] == ranges[top + 1..];
      parent1 := parent1[roots1[top] := parent1[i]];
      if right < ranges1[top] {
        right := ranges1[top];
      }
      roots1 := roots1[..top];
      ranges1 := ranges1[..top];
    }
  }

  /** What the merge at i relies on. */
  lemma MergeFacts(grey: seq<int>, lbl: seq<int>, rng: seq<int>, parent: seq<int>,
                   roots: seq<int>, ranges: seq<int>, wit: seq<int>, comps: seq<int>,
                   i: int, s: int, parent1: seq<int>, right: int)
    requires MergeCase(grey, lbl, rng, parent, roots, ranges, wit, comps, i, s, parent1, right)
    ensures lbl[i] == parent[i] && CycleRoot(lbl, parent[i]) && parent[i] < i
    ensures ranges[s] >= i && right >= i
    ensures forall k :: 0 <= k < |roots| ==> StackRoot(grey, lbl, parent, roots, k, i)
    ensures forall k :: s < k < |roots| ==> parent[i] < roots[k]
    ensures Forest(grey, parent1)
  {
    var c0 := parent[i];
    MergeSlot(grey, lbl, rng, parent, roots, ranges, wit, comps, i);
    assert ClosedAt(grey, lbl, i);
    WithinCycle(grey, lbl, rng, i);
    assert MemberOf(grey, lbl, rng, parent, roots, ranges, comps, c0, i);
    assert MemberAt(grey, lbl, rng, parent, roots, ranges, comps, c0, i);
    forall k | 0 <= k < |roots|
      ensures StackRoot(grey, lbl, parent, roots, k, i)
    {
      assert StackAt(grey, lbl, rng, parent, roots, ranges, wit, k, i);
    }
    MergedForest(grey, parent, parent1, roots, s, c0);
  }

  /** A stack root: a tree root and a cycle root below i. */
  ghost predicate StackRoot(grey: seq<int>, lbl: seq<int>, parent: seq<int>, roots: seq<int>, k: int, i: int)
    requires 0 <= k < |roots| && |parent| == |grey|
  {
    && 0 <= roots[k] < i <= |grey| && grey[roots[k]] != -1
    && parent[roots[k]] == roots[k] && CycleRoot(lbl, roots[k])
  }

  /** The roots after the merge. */
  lemma MergeFinds(grey: seq<int>, lbl: seq<int>, rng: seq<int>, parent: seq<int>,
                   roots: seq<int>, ranges: seq<int>, wit: seq<int>, comps: seq<int>,
                   i: int, s: int, parent1: seq<int>, right: int)
    requires MergeCase(grey, lbl, rng, parent, roots, ranges, wit, comps, i, s, parent1, right)
    ensures Forest(grey, parent1)
    ensures forall v :: 0 <= v < |grey| && grey[v] != -1 ==>
      Find(grey, parent1, v) ==
        if Find(grey, parent, v) in roots[s + 1..] then roots[s] else Find(grey, parent, v)
  {
    MergeFacts(grey, lbl, rng, parent, roots, ranges, wit, comps, i, s, parent1, right);
    assert forall k :: 0 <= k < |roots| ==> 0 <= roots[k] < |grey| && parent[roots[k]] == roots[k] by {
      forall k | 0 <= k < |roots|
        ensures 0 <= roots[k] < |grey| && parent[roots[k]] == roots[k]
      {
        assert StackRoot(grey, lbl, parent, roots, k, i);
      }
    }
    forall v | 0 <= v < |grey| && grey[v] != -1
      ensures Find(grey, parent1, v) ==
        if Find(grey, parent, v) in roots[s + 1..] then roots[s] else Find(grey, parent, v)
    {
      FindMerged(grey, parent, parent1, roots, s, parent[i], v);
    }
  }

  /** The parents after the merge still meet Parents, one vertex further. */
  lemma MergeParents(grey: seq<int>, lbl: seq<int>, rng: seq<int>, parent: seq<int>,
                     roots: seq<int>, ranges: seq<int>, wit: seq<int>, comps: seq<int>,
                     i: int, s: int, parent1: seq<int>, right: int)
    requires MergeCase(grey, lbl, rng, parent, roots, ranges, wit, comps, i, s, parent1, right)
    ensures Parents(grey, lbl, parent1, i + 1)
  {
    MergeFacts(grey, lbl, rng, parent, roots, ranges, wit, comps, i, s, parent1, right);
    forall v | 0 <= v < |grey| && grey[v] != -1 && (i + 1 <= v || lbl[v] != v)
      ensures parent1[v] == lbl[v]
    {
      assert v !in roots[s + 1..] by {
        forall k | s + 1 <= k < |roots|
          ensures roots[k] != v
        {
          assert StackRoot(grey, lbl, parent, roots, k, i);
        }
      }
    }
  }

  /** Stack entries below s keep their place after the merge. */
  lemma MergeLowerEntry(grey: seq<int>, lbl: seq<int>, rng: seq<int>, parent: seq<int>,
                        roots: seq<int>, ranges: seq<int>, wit: seq<int>, comps: seq<int>,
                        i: int, s: int, parent1: seq<int>, right: int,
                        roots1: seq<int>, ranges1: seq<int>, wit1: seq<int>, k: int)
    requires MergeCase(grey, lbl, rng, parent, roots, ranges, wit, comps, i, s, parent1, right)
    requires 0 <= k < s && k < |roots1| == |ranges1| == |wit1|
    requires roots1[k] == roots[k] && ranges1[k] == ranges[k] && wit1[k] == wit[k]
    ensures Forest(grey, parent1)
    ensures StackAt(grey, lbl, rng, parent1, roots1, ranges1, wit1, k, i + 1)
  {
    MergeFacts(grey, lbl, rng, parent, roots, ranges, wit, comps, i, s, parent1, right);
    MergeFinds(grey, lbl, rng, parent, roots, ranges, wit, comps, i, s, parent1, right);
    assert StackAt(grey, lbl, rng, parent, roots, ranges, wit, k, i);
    assert roots[k] < roots[s];
    assert roots[k] !in roots[s + 1..];
    assert Find(grey, parent, wit[k]) !in roots[s + 1..];
    assert wit[k] != lbl[i];
    EndPast(grey, lbl, rng, wit[k], i);
  }

  /** The range of entry s after the merge, as the source computes it. */
  function MergedRange(ranges: seq<int>, s: int, right: int): int
    requires 0 <= s < |ranges|
  {
    if ranges[s] < right then right else ranges[s]
  }

  /** A member cycle of the merged entry s whose end is its new range. */
  ghost function MergedWitness(ranges: seq<int>, wit: seq<int>, s: int, i: int, right: int): int
    requires 0 <= s < |ranges| == |wit|
  {
    var j := MaxIndex(i, ranges[s + 1..]);
    if ranges[s] < right && j != -1 then wit[s + 1 + j] else wit[s]
  }

  /** Entry s, if it stays open, is a proper stack entry after the merge. */
  lemma MergeTopEntry(grey: seq<int>, lbl: seq<int>, rng: seq<int>, parent: seq<int>,
                      roots: seq<int>, ranges: seq<int>, wit: seq<int>, comps: seq<int>,
                      i: int, s: int, parent1: seq<int>, right: int)
    requires MergeCase(grey, lbl, rng, parent, roots, ranges, wit, comps, i, s, parent1, right)
    requires MergedRange(ranges, s, right) > i
    ensures Forest(grey, parent1)
    ensures StackAt(grey, lbl, rng, parent1, roots[..s + 1],
                    ranges[..s] + [MergedRange(ranges, s, right)],
                    wit[..s] + [MergedWitness(ranges, wit, s, i, right)], s, i + 1)
  {
    var j := MaxIndex(i, ranges[s + 1..]);
    var k := if ranges[s] < right then s + 1 + j else s;
    assert s <= k < |roots| by {
      MergeFacts(grey, lbl, rng, parent, roots, ranges, wit, comps, i, s, parent1, right);
    }
    assert StackAt(grey, lbl, rng, parent, roots, ranges, wit, k, i);
    var w := wit[k];
    assert w == MergedWitness(ranges, wit, s, i, right);
    assert 0 <= w < i && grey[w] != -1 && CycleRoot(lbl, w) && rng[w] == MergedRange(ranges, s, right);
    MergedWitnessFind(grey, lbl, rng, parent, roots, ranges, wit, comps, i, s, parent1, right, k);
    assert parent1[roots[s]] == roots[s] && 0 <= roots[s] < i && grey[roots[s]] != -1 by {
      MergeFacts(grey, lbl, rng, parent, roots, ranges, wit, comps, i, s, parent1, right);
      assert StackRoot(grey, lbl, parent, roots, s, i);
      assert roots[s] !in roots[s + 1..];
    }
    EntryAfter(grey, lbl, rng, parent1, roots[..s + 1], ranges[..s] + [MergedRange(ranges, s, right)],
               wit[..s] + [w], s, i + 1);
  }

  lemma EntryAfter(grey: seq<int>, lbl: seq<int>, rng: seq<int>, parent: seq<int>,
                   roots: seq<int>, ranges: seq<int>, wit: seq<int>, k: int, i: int)
    requires Forest(grey, parent) && |rng| == |grey|
    requires 0 <= k < |roots| == |ranges| == |wit|
    requires 0 <= roots[k] < i <= |grey| && grey[roots[k]] != -1 && parent[roots[k]] == roots[k]
    requires ranges[k] >= i
    requires 0 <= wit[k] < i && grey[wit[k]] != -1 && CycleRoot(lbl, wit[k])
    requires Find(grey, parent, wit[k]) == roots[k] && rng[wit[k]] == ranges[k]
    ensures StackAt(grey, lbl, rng, parent, roots, ranges, wit, k, i)
  {
  }

  lemma MergedWitnessFind(grey: seq<int>, lbl: seq<int>, rng: seq<int>, parent: seq<int>,
                          roots: seq<int>, ranges: seq<int>, wit: seq<int>, comps: seq<int>,
                          i: int, s: int, parent1: seq<int>, right: int, k: int)
    requires MergeCase(grey, lbl, rng, parent, roots, ranges, wit, comps, i, s, parent1, right)
    requires s <= k < |roots| && StackAt(grey, lbl, rng, parent, roots, ranges, wit, k, i)
    ensures Forest(grey, parent1) && Find(grey, parent1, wit[k]) == roots[s]
  {
    MergeFacts(grey, lbl, rng, parent, roots, ranges, wit, comps, i, s, parent1, right);
    forall q | 0 <= q < |roots|
      ensures 0 <= roots[q] < |grey| && parent[roots[q]] == roots[q]
    {
      assert StackRoot(grey, lbl, parent, roots, q, i);
    }
    FindMerged(grey, parent, parent1, roots, s, parent[i], wit[k]);
    assert roots[s] !in roots[s + 1..];
    if k > s {
      assert roots[k] == roots[s + 1..][k - s - 1];
    }
  }

  /** The recorded components after the merge, with entry s kept open. */
  lemma MergeCompsKeep(grey: seq<int>, lbl: seq<int>, rng: seq<int>, parent: seq<int>,
                       roots: seq<int>, ranges: seq<int>, wit: seq<int>, comps: seq<int>,
                       i: int, s: int, parent1: seq<int>, right: int)
    requires MergeCase(grey, lbl, rng, parent, roots, ranges, wit, comps, i, s, parent1, right)
    ensures |parent1| == |grey| && Comps(grey, parent1, roots[..s + 1], comps, i + 1)
  {
    var j := i + 1;
    var roots1 := roots[..s + 1];
    forall k | 0 <= k < |comps|
      ensures CompAt(grey, parent1, roots1, comps, k, j)
    {
      assert CompAt(grey, parent, roots, comps, k, i);
      assert comps[k] !in roots[s + 1..];
    }
  }

  /** The recorded components after the merge, with entry s closed. */
  lemma MergeCompsClose(grey: seq<int>, lbl: seq<int>, rng: seq<int>, parent: seq<int>,
                        roots: seq<int>, ranges: seq<int>, wit: seq<int>, comps: seq<int>,
                        i: int, s: int, parent1: seq<int>, right: int)
    requires MergeCase(grey, lbl, rng, parent, roots, ranges, wit, comps, i, s, parent1, right)
    ensures |parent1| == |grey| && Comps(grey, parent1, roots[..s], comps + [roots[s]], i + 1)
  {
    var j := i + 1;
    var comps' := comps + [roots[s]];
    assert StackRoot(grey, lbl, parent, roots, s, i) && roots[s] !in roots[s + 1..] by {
      MergeFacts(grey, lbl, rng, parent, roots, ranges, wit, comps, i, s, parent1, right);
    }
    assert roots[s] !in roots[..s];
    forall k | 0 <= k < |comps'|
      ensures CompAt(grey, parent1, roots[..s], comps', k, j)
    {
      if k < |comps| {
        assert CompAt(grey, parent, roots, comps, k, i);
        assert comps[k] !in roots[s + 1..];
      }
    }
    forall a, b | 0 <= a < b < |comps'|
      ensures comps'[a] != comps'[b]
    {
      assert CompAt(grey, parent, roots, comps, a, i);
    }
  }

  /** Where cycle c stood before the merge, in terms of stack indices. */
  lemma MemberBefore(grey: seq<int>, lbl: seq<int>, rng: seq<int>, parent: seq<int>,
                     roots: seq<int>, ranges: seq<int>, wit: seq<int>, comps: seq<int>,
                     i: int, c: int) returns (q: int)
    requires ScanInv(grey, lbl, rng, parent, roots, ranges, wit, comps, i)
    requires 0 <= c < i && CycleRoot(lbl, c)
    ensures grey[c] != -1
    ensures q == -1 ==> Find(grey, parent, c) in comps && Find(grey, parent, c) !in roots && rng[c] < i
    ensures q != -1 ==>
      && 0 <= q < |roots| && roots[q] == Find(grey, parent, c) && Find(grey, parent, c) !in comps
      && rng[c] <= ranges[q] && (q + 1 == |roots| || c < roots[q + 1])
  {
    assert ClosedAt(grey, lbl, c);
    assert MemberOf(grey, lbl, rng, parent, roots, ranges, comps, c, i);
    assert MemberAt(grey, lbl, rng, parent, roots, ranges, comps, c, i);
    var r := Find(grey, parent, c);
    if r in comps {
      var k :| 0 <= k < |comps| && comps[k] == r;
      assert CompAt(grey, parent, roots, comps, k, i);
      q := -1;
    } else {
      q :| 0 <= q < |roots| && roots[q] == r;
    }
  }

  /** Cycle c keeps its membership through the merge at i. */
  lemma MergeMember(grey: seq<int>, lbl: seq<int>, rng: seq<int>, parent: seq<int>,
                    roots: seq<int>, ranges: seq<int>, wit: seq<int>, comps: seq<int>,
                    i: int, s: int, parent1: seq<int>, right: int, c: int)
    requires MergeCase(grey, lbl, rng, parent, roots, ranges, wit, comps, i, s, parent1, right)
    requires 0 <= c <= i && CycleRoot(lbl, c)
    ensures Forest(grey, parent1)
    ensures MergedRange(ranges, s, right) > i ==>
      MemberOf(grey, lbl, rng, parent1, roots[..s + 1],
               ranges[..s] + [MergedRange(ranges, s, right)], comps, c, i + 1)
    ensures MergedRange(ranges, s, right) <= i ==>
      MemberOf(grey, lbl, rng, parent1, roots[..s], ranges[..s], comps + [roots[s]], c, i + 1)
  {
    var r1m := MergedRange(ranges, s, right);
    assert c != i && Forest(grey, parent1) && Increasing(roots) && |roots| == |ranges| by {
      MergeFacts(grey, lbl, rng, parent, roots, ranges, wit, comps, i, s, parent1, right);
    }
    assert forall k :: 0 <= k < |roots| ==> roots[k] !in comps by {
      CompsOffStack(grey, lbl, rng, parent, roots, ranges, wit, comps, i);
    }
    var q := MemberBefore(grey, lbl, rng, parent, roots, ranges, wit, comps, i, c);
    var r := Find(grey, parent, c);
    var r1 := Find(grey, parent1, c);
    assert r1 == if r in roots[s + 1..] then roots[s] else r by {
      MergeFinds(grey, lbl, rng, parent, roots, ranges, wit, comps, i, s, parent1, right);
    }
    if q == -1 {
      assert r !in roots[s + 1..];
    } else if q <= s {
      assert r !in roots[s + 1..];
    } else {
      assert r == roots[s + 1..][q - s - 1];
      assert ranges[q] == ranges[s + 1..][q - s - 1];
    }
    if r1m > i {
      MemberKeep(grey, lbl, rng, parent1, roots, ranges, comps, c, i, s, q, r1m);
    } else {
      MemberClose(grey, lbl, rng, parent1, roots, ranges, comps, c, i, s, q, r1m);
    }
  }

  /** The facts about cycle c after the merge that its membership rests on. */
  ghost predicate MergedMember(grey: seq<int>, lbl: seq<int>, rng: seq<int>, parent1: seq<int>,
                               roots: seq<int>, ranges: seq<int>, comps: seq<int>,
                               c: int, i: int, s: int, q: int, r1m: int)
    requires Forest(grey, parent1) && |rng| == |grey| && 0 <= c < |grey| && grey[c] != -1
  {
    && Increasing(roots) && 0 <= s < |roots| == |ranges|
    && (forall k :: 0 <= k < |roots| ==> roots[k] !in comps)
    && (q == -1 ==> Find(grey, parent1, c) in comps && rng[c] < i)
    && (q != -1 ==>
          && 0 <= q < |roots|
          && Find(grey, parent1, c) == (if q <= s then roots[q] else roots[s])
          && rng[c] <= (if q < s then ranges[q] else r1m)
          && (q >= s || c < roots[q + 1]))
  }

  lemma MemberKeep(grey: seq<int>, lbl: seq<int>, rng: seq<int>, parent1: seq<int>,
                   roots: seq<int>, ranges: seq<int>, comps: seq<int>,
                   c: int, i: int, s: int, q: int, r1m: int)
    requires Labelled(grey, lbl) && Forest(grey, parent1) && |rng| == |grey| && CycleRoot(lbl, c)
    requires grey[c] != -1 && MergedMember(grey, lbl, rng, parent1, roots, ranges, comps, c, i, s, q, r1m)
    requires r1m > i
    ensures MemberOf(grey, lbl, rng, parent1, roots[..s + 1], ranges[..s] + [r1m], comps, c, i + 1)
  {
    var roots1, ranges1 := roots[..s + 1], ranges[..s] + [r1m];
    var r1 := Find(grey, parent1, c);
    forall k | 0 <= k < |roots1| && roots1[k] == r1
      ensures rng[c] <= ranges1[k] && (k + 1 == |roots1| || c < roots1[k + 1])
    {
      assert q != -1;
      assert k == if q <= s then q else s;
    }
    assert MemberAt(grey, lbl, rng, parent1, roots1, ranges1, comps, c, i + 1);
  }

  lemma MemberClose(grey: seq<int>, lbl: seq<int>, rng: seq<int>, parent1: seq<int>,
                    roots: seq<int>, ranges: seq<int>, comps: seq<int>,
                    c: int, i: int, s: int, q: int, r1m: int)
    requires Labelled(grey, lbl) && Forest(grey, parent1) && |rng| == |grey| && CycleRoot(lbl, c)
    requires grey[c] != -1 && MergedMember(grey, lbl, rng, parent1, roots, ranges, comps, c, i, s, q, r1m)
    requires r1m <= i
    ensures MemberOf(grey, lbl, rng, parent1, roots[..s], ranges[..s], comps + [roots[s]], c, i + 1)
  {
    var roots1, ranges1, comps1 := roots[..s], ranges[..s], comps + [roots[s]];
    var r1 := Find(grey, parent1, c);
    forall k | 0 <= k < |roots1| && roots1[k] == r1
      ensures rng[c] <= ranges1[k] && (k + 1 == |roots1| || c < roots1[k + 1])
    {
      assert q != -1 && q == k;
    }
    assert r1 in comps1 ==> rng[c] < i + 1;
    assert MemberAt(grey, lbl, rng, parent1, roots1, ranges1, comps1, c, i + 1);
  }

  lemma CompsOffStack(grey: seq<int>, lbl: seq<int>, rng: seq<int>, parent: seq<int>,
                      roots: seq<int>, ranges: seq<int>, wit: seq<int>, comps: seq<int>, i: int)
    requires ScanInv(grey, lbl, rng, parent, roots, ranges, wit, comps, i)
    ensures forall k :: 0 <= k < |roots| ==> roots[k] !in comps
  {
    forall k | 0 <= k < |comps|
      ensures comps[k] !in roots
    {
      assert CompAt(grey, parent, roots, comps, k, i);
    }
  }

  /** The merge at i with entry s kept open re-establishes the scan state
      before i + 1. */
  lemma MergeKeep(grey: seq<int>, lbl: seq<int>, rng: seq<int>, parent: seq<int>,
                  roots: seq<int>, ranges: seq<int>, wit: seq<int>, comps: seq<int>,
                  i: int, s: int, parent1: seq<int>, right: int)
    requires MergeCase(grey, lbl, rng, parent, roots, ranges, wit, comps, i, s, parent1, right)
    requires MergedRange(ranges, s, right) > i
    ensures ScanInv(grey, lbl, rng, parent1, roots[..s + 1], ranges[..s] + [MergedRange(ranges, s, right)],
                    wit[..s] + [MergedWitness(ranges, wit, s, i, right)], comps, i + 1)
  {
    var j := i + 1;
    var roots1 := roots[..s + 1];
    var ranges1 := ranges[..s] + [MergedRange(ranges, s, right)];
    var wit1 := wit[..s] + [MergedWitness(ranges, wit, s, i, right)];
    MergeParents(grey, lbl, rng, parent, roots, ranges, wit, comps, i, s, parent1, right);
    assert Increasing(roots) by {
      MergeFacts(grey, lbl, rng, parent, roots, ranges, wit, comps, i, s, parent1, right);
    }
    forall k | 0 <= k < |roots1|
      ensures StackAt(grey, lbl, rng, parent1, roots1, ranges1, wit1, k, j)
    {
      if k < s {
        MergeLowerEntry(grey, lbl, rng, parent, roots, ranges, wit, comps, i, s, parent1, right,
                        roots1, ranges1, wit1, k);
      } else {
        MergeTopEntry(grey, lbl, rng, parent, roots, ranges, wit, comps, i, s, parent1, right);
      }
    }
    MergeCompsKeep(grey, lbl, rng, parent, roots, ranges, wit, comps, i, s, parent1, right);
    forall c | 0 <= c < j && CycleRoot(lbl, c)
      ensures MemberOf(grey, lbl, rng, parent1, roots1, ranges1, comps, c, j)
    {
      MergeMember(grey, lbl, rng, parent, roots, ranges, wit, comps, i, s, parent1, right, c);
    }
  }

  /** The merge at i with entry s closed and recorded re-establishes the
      scan state before i + 1. */
  lemma MergeClose(grey: seq<int>, lbl: seq<int>, rng: seq<int>, parent: seq<int>,
                   roots: seq<int>, ranges: seq<int>, wit: seq<int>, comps: seq<int>,
                   i: int, s: int, parent1: seq<int>, right: int)
    requires MergeCase(grey, lbl, rng, parent, roots, ranges, wit, comps, i, s, parent1, right)
    requires MergedRange(ranges, s, right) <= i
    ensures ScanInv(grey, lbl, rng, parent1, roots[..s], ranges[..s], wit[..s], comps + [roots[s]], i + 1)
  {
    var j := i + 1;
    var roots1, ranges1, wit1, comps1 := roots[..s], ranges[..s], wit[..s], comps + [roots[s]];
    MergeParents(grey, lbl, rng, parent, roots, ranges, wit, comps, i, s, parent1, right);
    assert Increasing(roots) by {
      MergeFacts(grey, lbl, rng, parent, roots, ranges, wit, comps, i, s, parent1, right);
    }
    forall k | 0 <= k < |roots1|
      ensures StackAt(grey, lbl, rng, parent1, roots1, ranges1, wit1, k, j)
    {
      MergeLowerEntry(grey, lbl, rng, parent, roots, ranges, wit, comps, i, s, parent1, right,
                      roots1, ranges1, wit1, k);
    }
    MergeCompsClose(grey, lbl, rng, parent, roots, ranges, wit, comps, i, s, parent1, right);
    forall c | 0 <= c < j && CycleRoot(lbl, c)
      ensures MemberOf(grey, lbl, rng, parent1, roots1, ranges1, comps1, c, j)
    {
      MergeMember(grey, lbl, rng, parent, roots, ranges, wit, comps, i, s, parent1, right, c);
    }
  }

  /** At the end of the scan nothing is open, and the tree of every vertex
      that is not a self loop has been recorded. */
  lemma ScanDone(grey: seq<int>, lbl: seq<int>, rng: seq<int>, parent: seq<int>,
                 roots: seq<int>, ranges: seq<int>, wit: seq<int>, comps: seq<int>)
    requires ScanInv(grey, lbl, rng, parent, roots, ranges, wit, comps, |grey|)
    ensures roots == []
    ensures forall v :: 0 <= v < |grey| && grey[v] != -1 ==> Find(grey, parent, v) in comps
  {
    var n := |grey|;
    assert |roots| > 0 ==> StackAt(grey, lbl, rng, parent, roots, ranges, wit, 0, n);
    forall v | 0 <= v < n && grey[v] != -1
      ensures Find(grey, parent, v) in comps
    {
      assert ClosedAt(grey, lbl, v);
      var c := lbl[v];
      assert MemberOf(grey, lbl, rng, parent, roots, ranges, comps, c, n);
      assert ParentAt(grey, parent, v);
    }
  }

  /* ---------------- Overlapping spans and interleaving cycles ---------------- */

  predicate In(lo: int, hi: int, v: int) {
    lo <= v <= hi
  }

  /** No black edge of cycle r has just one end in [lo, hi]. */
  ghost predicate BlackInside(grey: seq<int>, lbl: seq<int>, r: int, lo: int, hi: int)
    requires |lbl| == |grey|
  {
    forall v :: 0 <= v < |grey| && lbl[v] == r ==> (In(lo, hi, v) <==> In(lo, hi, Mate(v)))
  }

  /** Vertex z lies strictly inside the span of cycle b, on a cycle rooted
      below b. */
  predicate Overlap(lbl: seq<int>, rng: seq<int>, z: int, b: int)
    requires |rng| == |lbl|
  {
    0 <= z < |lbl| && CycleRoot(lbl, b) && 0 <= lbl[z] < b < z < rng[b]
  }

  /** Along a traversal, membership of [lo, hi] that differs at steps j1 and
      j2 changes at some single step. */
  lemma {:induction false} Switch(grey: seq<int>, r: int, lo: int, hi: int, j1: nat, j2: nat)
    returns (k: nat)
    requires GreyGraph(grey) && 0 <= r < |grey| && grey[r] != -1
    requires In(lo, hi, Iter(grey, r, j1)) != In(lo, hi, Iter(grey, r, j2))
    ensures In(lo, hi, Iter(grey, r, k)) != In(lo, hi, Iter(grey, r, k + 1))
    decreases if j1 <= j2 then j2 - j1 else j1 - j2, if j1 <= j2 then 0 else 1
  {
    if j2 < j1 {
      k := Switch(grey, r, lo, hi, j2, j1);
    } else if In(lo, hi, Iter(grey, r, j1)) != In(lo, hi, Iter(grey, r, j1 + 1)) {
      k := j1;
    } else {
      k := Switch(grey, r, lo, hi, j1 + 1, j2);
    }
  }

  /** A step of the traversal from root r that is inside [lo, hi] exactly
      when v is. */
  lemma TraceIndex(grey: seq<int>, lbl: seq<int>, r: int, lo: int, hi: int, v: int) returns (j: nat)
    requires Labelled(grey, lbl) && CycleRoot(lbl, r) && BlackInside(grey, lbl, r, lo, hi)
    requires 0 <= v < |grey| && lbl[v] == r
    ensures grey[r] != -1 && (In(lo, hi, Iter(grey, r, j)) <==> In(lo, hi, v))
  {
    assert ClosedAt(grey, lbl, r);
    assert ClosedAt(grey, lbl, v);
    var j0 :| 0 <= j0 <= |grey| && (v == Iter(grey, r, j0) || v == Mate(Iter(grey, r, j0)));
    j := j0;
    LabelPropagates(grey, lbl, r, 0, j);
  }

  /** A cycle with vertices inside and outside [lo, hi], none of whose black
      edges leaves the interval, has a grey edge leaving it. */
  lemma CrossingEdge(grey: seq<int>, lbl: seq<int>, r: int, lo: int, hi: int, x: int, y: int)
    returns (p: int)
    requires Labelled(grey, lbl) && CycleRoot(lbl, r) && BlackInside(grey, lbl, r, lo, hi)
    requires 0 <= x < |grey| && 0 <= y < |grey| && lbl[x] == r && lbl[y] == r
    requires In(lo, hi, x) && !In(lo, hi, y)
    ensures 0 <= p < |grey| && lbl[p] == r && In(lo, hi, p)
    ensures 0 <= grey[p] < |grey| && lbl[grey[p]] == r && !In(lo, hi, grey[p])
  {
    var jx := TraceIndex(grey, lbl, r, lo, hi, x);
    var jy := TraceIndex(grey, lbl, r, lo, hi, y);
    var k := Switch(grey, r, lo, hi, jx, jy);
    var a := Iter(grey, r, k);
    LabelPropagates(grey, lbl, r, 0, k);
    assert ClosedAt(grey, lbl, a);
    var m := Mate(a);
    assert ClosedAt(grey, lbl, m);
    assert GreyAt(grey, m);
    assert Iter(grey, r, k + 1) == grey[m];
    if In(lo, hi, m) {
      p := m;
    } else {
      p := grey[m];
    }
  }

  /** A vertex of cycle lbl[z] strictly inside the span of a later-rooted
      cycle b makes the two cycles interleave: the proof finds a grey edge
      of lbl[z] leaving the span of b at p, then a grey edge of b crossing
      p. */
  /** No black edge of the overlapping cycle leaves the span of cycle b. */
  lemma OverlapInsideSpan(grey: seq<int>, lbl: seq<int>, rng: seq<int>, z: int, b: int)
    requires Labelled(grey, lbl) && Ends(lbl, rng) && Overlap(lbl, rng, z, b)
    ensures BlackInside(grey, lbl, lbl[z], b, rng[b])
  {
    assert ClosedAt(grey, lbl, z);
    assert CycleEnd(lbl, rng, b);
    forall v | 0 <= v < |grey| && lbl[v] == lbl[z]
      ensures In(b, rng[b], v) <==> In(b, rng[b], Mate(v))
    {
      assert ClosedAt(grey, lbl, v);
    }
  }

  /** No black edge of cycle b straddles a vertex p of the overlapping cycle. */
  lemma OverlapBeforeEdge(grey: seq<int>, lbl: seq<int>, rng: seq<int>, z: int, b: int, p: int)
    requires Labelled(grey, lbl) && Ends(lbl, rng) && Overlap(lbl, rng, z, b)
    requires 0 <= p < |grey| && lbl[p] == lbl[z]
    ensures BlackInside(grey, lbl, b, 0, p - 1)
  {
    assert ClosedAt(grey, lbl, z);
    assert ClosedAt(grey, lbl, p);
    forall v | 0 <= v < |grey| && lbl[v] == b
      ensures In(0, p - 1, v) <==> In(0, p - 1, Mate(v))
    {
      assert ClosedAt(grey, lbl, v);
    }
  }

  lemma OverlapInterleave(grey: seq<int>, lbl: seq<int>, rng: seq<int>, z: int, b: int)
    requires Labelled(grey, lbl) && Ends(lbl, rng) && Overlap(lbl, rng, z, b)
    ensures Interleave(grey, lbl, lbl[z], b)
  {
    var a, e := lbl[z], rng[b];
    assert ClosedAt(grey, lbl, z);
    assert CycleEnd(lbl, rng, b);
    OverlapInsideSpan(grey, lbl, rng, z, b);
    var p := CrossingEdge(grey, lbl, a, b, e, z, a);
    OverlapBeforeEdge(grey, lbl, rng, z, b, p);
    var u := CrossingEdge(grey, lbl, b, 0, p - 1, b, e);
    WithinCycle(grey, lbl, rng, u);
    WithinCycle(grey, lbl, rng, grey[u]);
    var q := grey[p];
    assert GreyAt(grey, p);
    if q < b {
      assert EdgesCross(grey, q, u);
    } else {
      assert EdgesCross(grey, u, p);
    }
  }

  /** Distinct interleaving cycles overlap: a vertex of the earlier-rooted
      one lies strictly inside the span of the other. */
  lemma InterleaveOverlap(grey: seq<int>, lbl: seq<int>, rng: seq<int>, c: int, t: int)
    returns (z: int, b: int)
    requires Labelled(grey, lbl) && Ends(lbl, rng)
    requires Interleave(grey, lbl, c, t) && c != t
    ensures Overlap(lbl, rng, z, b)
    ensures (lbl[z] == c && b == t) || (lbl[z] == t && b == c)
  {
    var e, f :| EdgesCross(grey, e, f) &&
      ((lbl[e] == c && lbl[f] == t) || (lbl[e] == t && lbl[f] == c));
    assert ClosedAt(grey, lbl, e);
    assert ClosedAt(grey, lbl, f);
    WithinCycle(grey, lbl, rng, e);
    WithinCycle(grey, lbl, rng, f);
    WithinCycle(grey, lbl, rng, grey[e]);
    WithinCycle(grey, lbl, rng, grey[f]);
    if lbl[e] < lbl[f] {
      z, b := grey[e], lbl[f];
    } else {
      z, b := f, lbl[e];
    }
  }

  /* ---------------- The scan joins exactly the interleaving cycles ---------------- */

  /** Every cycle is connected to the root of its tree. */
  ghost predicate Sound(grey: seq<int>, lbl: seq<int>, parent: seq<int>)
    requires Forest(grey, parent) && |lbl| == |grey|
  {
    forall c :: CycleRoot(lbl, c) && grey[c] != -1 ==> Connected(grey, lbl, c, Find(grey, parent, c))
  }

  /** The overlap at z with cycle b has put the two cycles in one tree. */
  ghost predicate JoinedAt(grey: seq<int>, lbl: seq<int>, rng: seq<int>, parent: seq<int>, z: int, b: int)
    requires Labelled(grey, lbl) && Forest(grey, parent) && |rng| == |grey| && Overlap(lbl, rng, z, b)
  {
    assert ClosedAt(grey, lbl, z);
    Find(grey, parent, lbl[z]) == Find(grey, parent, b)
  }

  /** Every overlap at a vertex below i has been joined. */
  ghost predicate Joined(grey: seq<int>, lbl: seq<int>, rng: seq<int>, parent: seq<int>, i: int)
    requires Labelled(grey, lbl) && Forest(grey, parent) && |rng| == |grey|
  {
    forall z, b :: z < i && Overlap(lbl, rng, z, b) ==> JoinedAt(grey, lbl, rng, parent, z, b)
  }

  /** Recorded component k closed at vertex ends[k]: a vertex of its tree
      that no cycle of the tree passes. */
  ghost predicate EndAt(grey: seq<int>, lbl: seq<int>, rng: seq<int>, parent: seq<int>,
                        comps: seq<int>, ends: seq<int>, k: int)
    requires Labelled(grey, lbl) && Forest(grey, parent) && |rng| == |grey|
    requires 0 <= k < |comps| == |ends|
  {
    && 0 <= ends[k] < |grey| && grey[ends[k]] != -1 && Find(grey, parent, ends[k]) == comps[k]
    && forall c :: CycleRoot(lbl, c) && grey[c] != -1 && Find(grey, parent, c) == comps[k] ==>
         rng[c] <= ends[k]
  }

  /** The closing vertices of the recorded components, in increasing order. */
  ghost predicate Closings(grey: seq<int>, lbl: seq<int>, rng: seq<int>, parent: seq<int>,
                           comps: seq<int>, ends: seq<int>, i: int)
    requires Labelled(grey, lbl) && Forest(grey, parent) && |rng| == |grey|
  {
    && |ends| == |comps| && Increasing(ends)
    && (forall k :: 0 <= k < |ends| ==> ends[k] < i)
    && forall k :: 0 <= k < |comps| ==> EndAt(grey, lbl, rng, parent, comps, ends, k)
  }

  /** What the scan has established about the trees before vertex i, besides
      ScanInv: they join only connected cycles, they join every overlap
      seen, and each recorded component closed at its last vertex. */
  ghost predicate Exact(grey: seq<int>, lbl: seq<int>, rng: seq<int>, parent: seq<int>,
                        comps: seq<int>, ends: seq<int>, i: int)
  {
    && Labelled(grey, lbl) && Forest(grey, parent) && |rng| == |grey|
    && Sound(grey, lbl, parent)
    && Joined(grey, lbl, rng, parent, i)
    && Closings(grey, lbl, rng, parent, comps, ends, i)
  }

  lemma ExactInit(grey: seq<int>, lbl: seq<int>, rng: seq<int>)
    requires Labelled(grey, lbl) && Ends(lbl, rng)
    ensures Exact(grey, lbl, rng, lbl, [], [], 0)
  {
    ScanInit(grey, lbl, rng);
    forall c | CycleRoot(lbl, c) && grey[c] != -1
      ensures Connected(grey, lbl, c, Find(grey, lbl, c))
    {
      ConnectedRefl(grey, lbl, c);
    }
  }

  lemma ExactSkip(grey: seq<int>, lbl: seq<int>, rng: seq<int>, parent: seq<int>,
                  comps: seq<int>, ends: seq<int>, i: int)
    requires Exact(grey, lbl, rng, parent, comps, ends, i)
    requires 0 <= i < |grey| && grey[i] == -1
    ensures Exact(grey, lbl, rng, parent, comps, ends, i + 1)
  {
  }

  lemma ExactPush(grey: seq<int>, lbl: seq<int>, rng: seq<int>, parent: seq<int>,
                  comps: seq<int>, ends: seq<int>, i: int)
    requires Exact(grey, lbl, rng, parent, comps, ends, i)
    requires 0 <= i < |grey| && lbl[i] == i
    ensures Exact(grey, lbl, rng, parent, comps, ends, i + 1)
  {
  }

  /** A component above entry s on the stack is connected to entry s's: its
      witness cycle passes over vertex i, which lies on a cycle of entry s. */
  lemma EntryConnected(grey: seq<int>, lbl: seq<int>, rng: seq<int>, parent: seq<int>,
                       roots: seq<int>, ranges: seq<int>, wit: seq<int>, comps: seq<int>,
                       i: int, s: int, parent1: seq<int>, right: int, k: int)
    requires MergeCase(grey, lbl, rng, parent, roots, ranges, wit, comps, i, s, parent1, right)
    requires Sound(grey, lbl, parent) && s < k < |roots|
    ensures Connected(grey, lbl, roots[k], roots[s])
  {
    EntryOverlap(grey, lbl, rng, parent, roots, ranges, wit, comps, i, s, parent1, right, k);
    var c0, w := parent[i], wit[k];
    OverlapInterleave(grey, lbl, rng, i, w);
    ConnectedStep(grey, lbl, c0, w);
    ConnectedSym(grey, lbl, c0, w);
    ConnectedSym(grey, lbl, w, roots[k]);
    ConnectedTrans(grey, lbl, roots[k], w, c0);
    ConnectedTrans(grey, lbl, roots[k], c0, roots[s]);
  }

  /** The witness cycle of a stack entry above entry s overlaps i's cycle. */
  lemma EntryOverlap(grey: seq<int>, lbl: seq<int>, rng: seq<int>, parent: seq<int>,
                     roots: seq<int>, ranges: seq<int>, wit: seq<int>, comps: seq<int>,
                     i: int, s: int, parent1: seq<int>, right: int, k: int)
    requires MergeCase(grey, lbl, rng, parent, roots, ranges, wit, comps, i, s, parent1, right)
    requires s < k < |roots|
    ensures Labelled(grey, lbl) && Ends(lbl, rng) && Forest(grey, parent)
    ensures Overlap(lbl, rng, i, wit[k]) && lbl[i] == parent[i]
    ensures Find(grey, parent, wit[k]) == roots[k] && Find(grey, parent, parent[i]) == roots[s]
    ensures CycleRoot(lbl, wit[k]) && grey[wit[k]] != -1 && CycleRoot(lbl, parent[i]) && grey[parent[i]] != -1
  {
    MergeFacts(grey, lbl, rng, parent, roots, ranges, wit, comps, i, s, parent1, right);
    var w := wit[k];
    assert StackAt(grey, lbl, rng, parent, roots, ranges, wit, k, i);
    assert CycleEnd(lbl, rng, w);
    assert lbl[i] < roots[k] <= w < i;
    assert rng[w] != i by {
      assert lbl[i] != w;
    }
  }

  /** The merge yields a forest. */
  lemma MergeForest(grey: seq<int>, lbl: seq<int>, rng: seq<int>, parent: seq<int>,
                    roots: seq<int>, ranges: seq<int>, wit: seq<int>, comps: seq<int>,
                    i: int, s: int, parent1: seq<int>, right: int)
    requires MergeCase(grey, lbl, rng, parent, roots, ranges, wit, comps, i, s, parent1, right)
    ensures Forest(grey, parent1)
  {
    MergeFacts(grey, lbl, rng, parent, roots, ranges, wit, comps, i, s, parent1, right);
  }

  /** The merge joins only connected cycles. */
  lemma MergeSound(grey: seq<int>, lbl: seq<int>, rng: seq<int>, parent: seq<int>,
                   roots: seq<int>, ranges: seq<int>, wit: seq<int>, comps: seq<int>,
                   i: int, s: int, parent1: seq<int>, right: int)
    requires MergeCase(grey, lbl, rng, parent, roots, ranges, wit, comps, i, s, parent1, right)
    requires Sound(grey, lbl, parent)
    ensures Forest(grey, parent1) && Sound(grey, lbl, parent1)
  {
    MergeFinds(grey, lbl, rng, parent, roots, ranges, wit, comps, i, s, parent1, right);
    forall c | CycleRoot(lbl, c) && grey[c] != -1
      ensures Connected(grey, lbl, c, Find(grey, parent1, c))
    {
      var r := Find(grey, parent, c);
      if r in roots[s + 1..] {
        var k :| s + 1 <= k < |roots| && roots[k] == r;
        EntryConnected(grey, lbl, rng, parent, roots, ranges, wit, comps, i, s, parent1, right, k);
        ConnectedTrans(grey, lbl, c, r, roots[s]);
      }
    }
  }

  /** The overlap of i's cycle with a cycle b whose span passes over i is
      joined by the merge. */
  lemma NewOverlap(grey: seq<int>, lbl: seq<int>, rng: seq<int>, parent: seq<int>,
                   roots: seq<int>, ranges: seq<int>, wit: seq<int>, comps: seq<int>,
                   i: int, s: int, parent1: seq<int>, right: int, b: int)
    requires MergeCase(grey, lbl, rng, parent, roots, ranges, wit, comps, i, s, parent1, right)
    requires Overlap(lbl, rng, i, b)
    ensures Forest(grey, parent1) && JoinedAt(grey, lbl, rng, parent1, i, b)
  {
    MergeFacts(grey, lbl, rng, parent, roots, ranges, wit, comps, i, s, parent1, right);
    MergeFinds(grey, lbl, rng, parent, roots, ranges, wit, comps, i, s, parent1, right);
    var q := MemberBefore(grey, lbl, rng, parent, roots, ranges, wit, comps, i, b);
    assert q >= s;
    if q > s {
      assert roots[q] == roots[s + 1..][q - s - 1];
    }
    assert roots[s] !in roots[s + 1..];
  }

  /** The merge joins every overlap seen so far, now including those at i. */
  lemma MergeJoined(grey: seq<int>, lbl: seq<int>, rng: seq<int>, parent: seq<int>,
                    roots: seq<int>, ranges: seq<int>, wit: seq<int>, comps: seq<int>,
                    i: int, s: int, parent1: seq<int>, right: int)
    requires MergeCase(grey, lbl, rng, parent, roots, ranges, wit, comps, i, s, parent1, right)
    requires Joined(grey, lbl, rng, parent, i)
    ensures Forest(grey, parent1) && Joined(grey, lbl, rng, parent1, i + 1)
  {
    MergeForest(grey, lbl, rng, parent, roots, ranges, wit, comps, i, s, parent1, right);
    forall z, b | z < i && Overlap(lbl, rng, z, b)
      ensures JoinedAt(grey, lbl, rng, parent1, z, b)
    {
      OldOverlap(grey, lbl, rng, parent, roots, ranges, wit, comps, i, s, parent1, right, z, b);
    }
    forall b | Overlap(lbl, rng, i, b)
      ensures JoinedAt(grey, lbl, rng, parent1, i, b)
    {
      NewOverlap(grey, lbl, rng, parent, roots, ranges, wit, comps, i, s, parent1, right, b);
    }
  }


  /** An overlap joined before the merge stays joined. */
  lemma OldOverlap(grey: seq<int>, lbl: seq<int>, rng: seq<int>, parent: seq<int>,
                   roots: seq<int>, ranges: seq<int>, wit: seq<int>, comps: seq<int>,
                   i: int, s: int, parent1: seq<int>, right: int, z: int, b: int)
    requires MergeCase(grey, lbl, rng, parent, roots, ranges, wit, comps, i, s, parent1, right)
    requires Overlap(lbl, rng, z, b) && JoinedAt(grey, lbl, rng, parent, z, b)
    ensures Forest(grey, parent1) && JoinedAt(grey, lbl, rng, parent1, z, b)
  {
    MergeFinds(grey, lbl, rng, parent, roots, ranges, wit, comps, i, s, parent1, right);
    assert ClosedAt(grey, lbl, z);
  }

  /** A component recorded before the merge keeps its closing vertex. */
  lemma MergeEndKeep(grey: seq<int>, lbl: seq<int>, rng: seq<int>, parent: seq<int>,
                     roots: seq<int>, ranges: seq<int>, wit: seq<int>, comps: seq<int>,
                     i: int, s: int, parent1: seq<int>, right: int, ends: seq<int>, k: int)
    requires MergeCase(grey, lbl, rng, parent, roots, ranges, wit, comps, i, s, parent1, right)
    requires Closings(grey, lbl, rng, parent, comps, ends, i) && 0 <= k < |comps|
    ensures Forest(grey, parent1)
    ensures EndAt(grey, lbl, rng, parent1, comps, ends, k)
    ensures EndAt(grey, lbl, rng, parent1, comps + [roots[s]], ends + [i], k)
  {
    MergeFinds(grey, lbl, rng, parent, roots, ranges, wit, comps, i, s, parent1, right);
    assert EndAt(grey, lbl, rng, parent, comps, ends, k);
    assert CompAt(grey, parent, roots, comps, k, i);
    assert comps[k] !in roots[s + 1..];
    assert roots[s] != comps[k];
  }

  /** The component closed by the merge closes at i. */
  lemma MergeEndClose(grey: seq<int>, lbl: seq<int>, rng: seq<int>, parent: seq<int>,
                      roots: seq<int>, ranges: seq<int>, wit: seq<int>, comps: seq<int>,
                      i: int, s: int, parent1: seq<int>, right: int, ends: seq<int>)
    requires MergeCase(grey, lbl, rng, parent, roots, ranges, wit, comps, i, s, parent1, right)
    requires MergedRange(ranges, s, right) <= i && |ends| == |comps|
    ensures Forest(grey, parent1)
    ensures EndAt(grey, lbl, rng, parent1, comps + [roots[s]], ends + [i], |comps|)
  {
    var comps1 := comps + [roots[s]];
    MergeFacts(grey, lbl, rng, parent, roots, ranges, wit, comps, i, s, parent1, right);
    MergeFinds(grey, lbl, rng, parent, roots, ranges, wit, comps, i, s, parent1, right);
    MergeClose(grey, lbl, rng, parent, roots, ranges, wit, comps, i, s, parent1, right);
    assert StackRoot(grey, lbl, parent, roots, s, i);
    assert roots[s] !in roots[s + 1..];
    assert ParentAt(grey, parent, i);
    forall c | CycleRoot(lbl, c) && grey[c] != -1 && Find(grey, parent1, c) == roots[s]
      ensures rng[c] <= i
    {
      if c < i + 1 {
        assert MemberOf(grey, lbl, rng, parent1, roots[..s], ranges[..s], comps1, c, i + 1);
        assert MemberAt(grey, lbl, rng, parent1, roots[..s], ranges[..s], comps1, c, i + 1);
        assert comps1[|comps|] == roots[s];
      }
    }
  }

  /** The merge at i with entry s kept open preserves Exact. */
  lemma ExactKeep(grey: seq<int>, lbl: seq<int>, rng: seq<int>, parent: seq<int>,
                  roots: seq<int>, ranges: seq<int>, wit: seq<int>, comps: seq<int>,
                  i: int, s: int, parent1: seq<int>, right: int, ends: seq<int>)
    requires MergeCase(grey, lbl, rng, parent, roots, ranges, wit, comps, i, s, parent1, right)
    requires Exact(grey, lbl, rng, parent, comps, ends, i)
    ensures Exact(grey, lbl, rng, parent1, comps, ends, i + 1)
  {
    MergeSound(grey, lbl, rng, parent, roots, ranges, wit, comps, i, s, parent1, right);
    MergeJoined(grey, lbl, rng, parent, roots, ranges, wit, comps, i, s, parent1, right);
    forall k | 0 <= k < |comps|
      ensures EndAt(grey, lbl, rng, parent1, comps, ends, k)
    {
      MergeEndKeep(grey, lbl, rng, parent, roots, ranges, wit, comps, i, s, parent1, right, ends, k);
    }
  }

  /** The merge at i that closes entry s preserves Exact, with i recorded as
      the closing vertex. */
  lemma ExactClose(grey: seq<int>, lbl: seq<int>, rng: seq<int>, parent: seq<int>,
                   roots: seq<int>, ranges: seq<int>, wit: seq<int>, comps: seq<int>,
                   i: int, s: int, parent1: seq<int>, right: int, ends: seq<int>)
    requires MergeCase(grey, lbl, rng, parent, roots, ranges, wit, comps, i, s, parent1, right)
    requires MergedRange(ranges, s, right) <= i
    requires Exact(grey, lbl, rng, parent, comps, ends, i)
    ensures Exact(grey, lbl, rng, parent1, comps + [roots[s]], ends + [i], i + 1)
  {
    var comps1, ends1 := comps + [roots[s]], ends + [i];
    MergeSound(grey, lbl, rng, parent, roots, ranges, wit, comps, i, s, parent1, right);
    MergeJoined(grey, lbl, rng, parent, roots, ranges, wit, comps, i, s, parent1, right);
    forall k | 0 <= k < |comps1|
      ensures EndAt(grey, lbl, rng, parent1, comps1, ends1, k)
    {
      if k < |comps| {
        MergeEndKeep(grey, lbl, rng, parent, roots, ranges, wit, comps, i, s, parent1, right, ends, k);
      } else {
        MergeEndClose(grey, lbl, rng, parent, roots, ranges, wit, comps, i, s, parent1, right, ends);
      }
    }
  }

  /** Interleaving cycles have been joined by the end of the scan. */
  lemma InterleaveJoined(grey: seq<int>, lbl: seq<int>, rng: seq<int>, parent: seq<int>, c: int, t: int)
    requires Labelled(grey, lbl) && Ends(lbl, rng) && Forest(grey, parent)
    requires Joined(grey, lbl, rng, parent, |grey|) && Interleave(grey, lbl, c, t)
    ensures CycleRoot(lbl, c) && CycleRoot(lbl, t) && grey[c] != -1 && grey[t] != -1
    ensures Find(grey, parent, c) == Find(grey, parent, t)
  {
    var e, f :| EdgesCross(grey, e, f) &&
      ((lbl[e] == c && lbl[f] == t) || (lbl[e] == t && lbl[f] == c));
    assert ClosedAt(grey, lbl, e);
    assert ClosedAt(grey, lbl, f);
    if c != t {
      var z, b := InterleaveOverlap(grey, lbl, rng, c, t);
      assert JoinedAt(grey, lbl, rng, parent, z, b);
    }
  }

  /** Along a path of interleaving cycles the scan never leaves one tree. */
  lemma ChainJoined(grey: seq<int>, lbl: seq<int>, rng: seq<int>, parent: seq<int>, p: seq<int>, j: int)
    requires Labelled(grey, lbl) && Ends(lbl, rng) && Forest(grey, parent)
    requires Joined(grey, lbl, rng, parent, |grey|) && Chain(grey, lbl, p)
    requires CycleRoot(lbl, p[0]) && 0 <= j < |p|
    ensures CycleRoot(lbl, p[j]) && grey[p[j]] != -1 && grey[p[0]] != -1
    ensures Find(grey, parent, p[j]) == Find(grey, parent, p[0])
  {
    assert ClosedAt(grey, lbl, p[0]);
    var k := 0;
    while k < j
      invariant 0 <= k <= j && CycleRoot(lbl, p[k]) && grey[p[k]] != -1
      invariant Find(grey, parent, p[k]) == Find(grey, parent, p[0])
    {
      assert Interleave(grey, lbl, p[k], p[k + 1]);
      InterleaveJoined(grey, lbl, rng, parent, p[k], p[k + 1]);
      k := k + 1;
    }
  }

  /** A vertex that is not a self loop is in the tree of its cycle's root. */
  lemma FindLabel(grey: seq<int>, lbl: seq<int>, parent: seq<int>, v: int)
    requires Labelled(grey, lbl) && Forest(grey, parent)
    requires forall u :: 0 <= u < |grey| && grey[u] != -1 && lbl[u] != u ==> parent[u] == lbl[u]
    requires 0 <= v < |grey| && grey[v] != -1
    ensures CycleRoot(lbl, lbl[v]) && grey[lbl[v]] != -1
    ensures Find(grey, parent, v) == Find(grey, parent, lbl[v])
  {
    assert ClosedAt(grey, lbl, v);
    assert ParentAt(grey, parent, v);
  }

  /** At the end of the scan two vertices share a tree exactly when their
      cycles are connected, and each recorded component's tree closes at its
      recorded vertex, the last vertex of the tree. */
  lemma ScanExact(grey: seq<int>, lbl: seq<int>, rng: seq<int>, parent: seq<int>,
                  roots: seq<int>, ranges: seq<int>, wit: seq<int>, comps: seq<int>, ends: seq<int>)
    requires ScanInv(grey, lbl, rng, parent, roots, ranges, wit, comps, |grey|)
    requires Exact(grey, lbl, rng, parent, comps, ends, |grey|)
    ensures forall u, v :: 0 <= u < |grey| && 0 <= v < |grey| && grey[u] != -1 && grey[v] != -1 ==>
      (Find(grey, parent, u) == Find(grey, parent, v) <==> Connected(grey, lbl, lbl[u], lbl[v]))
    ensures |ends| == |comps| && Increasing(ends)
    ensures forall k :: 0 <= k < |comps| ==>
      0 <= ends[k] < |grey| && grey[ends[k]] != -1 && Find(grey, parent, ends[k]) == comps[k]
    ensures forall k, v :: (0 <= k < |comps| && 0 <= v < |grey| && grey[v] != -1 &&
      Find(grey, parent, v) == comps[k]) ==> v <= ends[k]
  {
    forall u, v | 0 <= u < |grey| && 0 <= v < |grey| && grey[u] != -1 && grey[v] != -1
      ensures Find(grey, parent, u) == Find(grey, parent, v) <==> Connected(grey, lbl, lbl[u], lbl[v])
    {
      SameTree(grey, lbl, rng, parent, roots, ranges, wit, comps, ends, u, v);
    }
    forall k | 0 <= k < |comps|
      ensures 0 <= ends[k] < |grey| && grey[ends[k]] != -1 && Find(grey, parent, ends[k]) == comps[k]
    {
      assert EndAt(grey, lbl, rng, parent, comps, ends, k);
    }
    forall k, v | 0 <= k < |comps| && 0 <= v < |grey| && grey[v] != -1 && Find(grey, parent, v) == comps[k]
      ensures v <= ends[k]
    {
      assert EndAt(grey, lbl, rng, parent, comps, ends, k);
      FindLabel(grey, lbl, parent, v);
      WithinCycle(grey, lbl, rng, v);
    }
  }

  lemma SameTree(grey: seq<int>, lbl: seq<int>, rng: seq<int>, parent: seq<int>,
                 roots: seq<int>, ranges: seq<int>, wit: seq<int>, comps: seq<int>, ends: seq<int>,
                 u: int, v: int)
    requires ScanInv(grey, lbl, rng, parent, roots, ranges, wit, comps, |grey|)
    requires Exact(grey, lbl, rng, parent, comps, ends, |grey|)
    requires 0 <= u < |grey| && 0 <= v < |grey| && grey[u] != -1 && grey[v] != -1
    ensures Find(grey, parent, u) == Find(grey, parent, v) <==> Connected(grey, lbl, lbl[u], lbl[v])
  {
    FindLabel(grey, lbl, parent, u);
    FindLabel(grey, lbl, parent, v);
    var cu, cv := lbl[u], lbl[v];
    if Find(grey, parent, u) == Find(grey, parent, v) {
      var r := Find(grey, parent, u);
      ConnectedSym(grey, lbl, cv, r);
      ConnectedTrans(grey, lbl, cu, r, cv);
    }
    if Connected(grey, lbl, cu, cv) {
      var p :| Chain(grey, lbl, p) && p[0] == cu && p[|p| - 1] == cv;
      ChainJoined(grey, lbl, rng, parent, p, |p| - 1);
    }
  }

  /** One vertex i of the scan that lies on a cycle rooted below it:
      merge the components above its cycle's component, extend that
      component's range, and close it if it ends at i. */
  method MergeStep(grey: seq<int>, lbl: seq<int>, rng: seq<int>, parent: seq<int>,
                   roots: seq<int>, ranges: seq<int>, ghost wit: seq<int>, comps: seq<int>,
                   ghost ends: seq<int>, i: int)
    returns (parent': seq<int>, roots': seq<int>, ranges': seq<int>, ghost wit': seq<int>,
             comps': seq<int>, ghost ends': seq<int>)
    requires ScanInv(grey, lbl, rng, parent, roots, ranges, wit, comps, i)
    requires Exact(grey, lbl, rng, parent, comps, ends, i)
    requires 0 <= i < |grey| && grey[i] != -1 && parent[i] != i
    ensures ScanInv(grey, lbl, rng, parent', roots', ranges', wit', comps', i + 1)
    ensures Exact(grey, lbl, rng, parent', comps', ends', i + 1)
  {
    MergeSlot(grey, lbl, rng, parent, roots, ranges, wit, comps, i);
    ghost var s :| 0 <= s < |roots| && roots[s] == Find(grey, parent, parent[i]);
    forall k | 0 <= k < |roots|
      ensures 0 <= roots[k] < |parent|
    {
      assert StackAt(grey, lbl, rng, parent, roots, ranges, wit, k, i);
    }
    var parent1, roots1, ranges1, right := Merge(parent, roots, ranges, i, s);
    var top := |roots1| - 1;
    if ranges1[top] < right {
      ranges1 := ranges1[top := right];
    }
    assert ranges1 == ranges[..s] + [MergedRange(ranges, s, right)];
    parent' := parent1;
    if ranges1[top] <= i {
      MergeClose(grey, lbl, rng, parent, roots, ranges, wit, comps, i, s, parent1, right);
      ExactClose(grey, lbl, rng, parent, roots, ranges, wit, comps, i, s, parent1, right, ends);
      assert roots1[..top] == roots[..s];
      assert ranges1[..top] == ranges[..s];
      comps', ends' := comps + [roots1[top]], ends + [i];
      roots', ranges', wit' := roots1[..top], ranges1[..top], wit[..s];
    } else {
      MergeKeep(grey, lbl, rng, parent, roots, ranges, wit, comps, i, s, parent1, right);
      ExactKeep(grey, lbl, rng, parent, roots, ranges, wit, comps, i, s, parent1, right, ends);
      comps', ends' := comps, ends;
      roots', ranges', wit' := roots1, ranges1, wit[..s] + [MergedWitness(ranges, wit, s, i, right)];
    }
  }

  /** One vertex of the scan. */
  method ScanStep(grey: seq<int>, lbl: seq<int>, rng: seq<int>, parent: seq<int>,
                  roots: seq<int>, ranges: seq<int>, ghost wit: seq<int>, comps: seq<int>,
                  ghost ends: seq<int>, i: int)
    returns (parent': seq<int>, roots': seq<int>, ranges': seq<int>, ghost wit': seq<int>,
             comps': seq<int>, ghost ends': seq<int>)
    requires ScanInv(grey, lbl, rng, parent, roots, ranges, wit, comps, i) && i < |grey|
    requires Exact(grey, lbl, rng, parent, comps, ends, i)
    ensures ScanInv(grey, lbl, rng, parent', roots', ranges', wit', comps', i + 1)
    ensures Exact(grey, lbl, rng, parent', comps', ends', i + 1)
  {
    if grey[i] == -1 {
      ScanSkip(grey, lbl, rng, parent, roots, ranges, wit, comps, i);
      ExactSkip(grey, lbl, rng, parent, comps, ends, i);
      parent', roots', ranges', wit', comps', ends' := parent, roots, ranges, wit, comps, ends;
    } else if parent[i] == i {
      ScanPush(grey, lbl, rng, parent, roots, ranges, wit, comps, i);
      ExactPush(grey, lbl, rng, parent, comps, ends, i);
      parent', roots', ranges', wit', comps', ends' :=
        parent, roots + [i], ranges + [rng[i]], wit + [i], comps, ends;
    } else {
      parent', roots', ranges', wit', comps', ends' :=
        MergeStep(grey, lbl, rng, parent, roots, ranges, wit, comps, ends, i);
    }
  }

  /** The union-find scan of `connected_component`. Every vertex that is
      not a self loop ends in the tree of a recorded component; two vertices
      share a tree exactly when their cycles are connected by interleaving;
      no component is recorded twice; and the components are recorded in
      the order of their last vertices, kept in the ghost ends. */
  method ScanComponents(grey: seq<int>, lbl: seq<int>, rng: seq<int>)
    returns (parent: seq<int>, comps: seq<int>, ghost ends: seq<int>)
    requires Labelled(grey, lbl) && Ends(lbl, rng)
    ensures Forest(grey, parent)
    ensures forall v :: 0 <= v < |grey| && grey[v] != -1 && lbl[v] != v ==> parent[v] == lbl[v]
    ensures forall a, b :: 0 <= a < b < |comps| ==> comps[a] != comps[b]
    ensures forall k :: 0 <= k < |comps| ==>
      0 <= comps[k] < |grey| && grey[comps[k]] != -1 && parent[comps[k]] == comps[k]
    ensures forall v :: 0 <= v < |grey| && grey[v] != -1 ==> Find(grey, parent, v) in comps
    ensures forall u, v :: 0 <= u < |grey| && 0 <= v < |grey| && grey[u] != -1 && grey[v] != -1 ==>
      (Find(grey, parent, u) == Find(grey, parent, v) <==> Connected(grey, lbl, lbl[u], lbl[v]))
    ensures |ends| == |comps| && Increasing(ends)
    ensures forall k :: 0 <= k < |comps| ==>
      0 <= ends[k] < |grey| && grey[ends[k]] != -1 && Find(grey, parent, ends[k]) == comps[k]
    ensures forall k, v :: (0 <= k < |comps| && 0 <= v < |grey| && grey[v] != -1 &&
      Find(grey, parent, v) == comps[k]) ==> v <= ends[k]
  {
    var size := |grey|;
    parent, comps, ends := lbl, [], [];
    var roots: seq<int>, ranges: seq<int> := [], [];
    ghost var wit: seq<int> := [];
    ScanInit(grey, lbl, rng);
    ExactInit(grey, lbl, rng);
    var i := 0;
    while i < size
      invariant ScanInv(grey, lbl, rng, parent, roots, ranges, wit, comps, i)
      invariant Exact(grey, lbl, rng, parent, comps, ends, i)
    {
      parent, roots, ranges, wit, comps, ends :=
        ScanStep(grey, lbl, rng, parent, roots, ranges, wit, comps, ends, i);
      i := i + 1;
    }
    ScanDone(grey, lbl, rng, parent, roots, ranges, wit, comps);
    ScanExact(grey, lbl, rng, parent, roots, ranges, wit, comps, ends);
    forall k | 0 <= k < |comps|
      ensures 0 <= comps[k] < |grey| && grey[comps[k]] != -1 && parent[comps[k]] == comps[k]
    {
      assert CompAt(grey, parent, roots, comps, k, size);
    }
  }

  /* ---------------- One list per component ---------------- */

  /** Position j of list xs is linked by next to position j + 1, and the
      last position to -1. */
  predicate LinkAt(next: seq<int>, xs: seq<int>, j: int)
    requires 0 <= j < |xs|
  {
    0 <= xs[j] < |next| && next[xs[j]] == if j + 1 < |xs| then xs[j + 1] else -1
  }

  /** xs is the list headed by the tree root r: linked by next, without
      repetition, and made of r and the vertices below i of r's tree. */
  ghost predicate ListAt(grey: seq<int>, parent: seq<int>, next: seq<int>, xs: seq<int>, r: int, i: int)
    requires Forest(grey, parent)
  {
    && |xs| > 0 && xs[0] == r
    && (forall j :: 0 <= j < |xs| ==> LinkAt(next, xs, j))
    && Distinct(xs)
    && forall v :: 0 <= v < |grey| ==> (v in xs <==> InTree(grey, parent, v, r) && (v < i || v == r))
  }

  /** v is not a self loop and lies in the tree of r. */
  ghost predicate InTree(grey: seq<int>, parent: seq<int>, v: int, r: int)
    requires Forest(grey, parent) && 0 <= v < |grey|
  {
    grey[v] != -1 && Find(grey, parent, v) == r
  }

  ghost predicate TreeRoot(grey: seq<int>, parent: seq<int>, r: int) {
    0 <= r < |grey| == |parent| && grey[r] != -1 && parent[r] == r
  }

  /** The lists before vertex i of the list-building loop. */
  ghost predicate Lists(grey: seq<int>, parent: seq<int>, next: seq<int>, lists: seq<seq<int>>, i: int) {
    && Forest(grey, parent) && |next| == |grey| && |lists| == |grey| && 0 <= i <= |grey|
    && forall r :: 0 <= r < |grey| && TreeRoot(grey, parent, r) ==> ListAt(grey, parent, next, lists[r], r, i)
  }

  lemma ListsInit(grey: seq<int>, parent: seq<int>)
    requires Forest(grey, parent)
    ensures Lists(grey, parent, seq(|grey|, _ => -1), seq(|grey|, r => [r]), 0)
  {
    var next: seq<int> := seq(|grey|, _ => -1);
    var lists: seq<seq<int>> := seq(|grey|, r => [r]);
    forall r | 0 <= r < |grey| && TreeRoot(grey, parent, r)
      ensures ListAt(grey, parent, next, lists[r], r, 0)
    {
      assert LinkAt(next, lists[r], 0);
    }
  }

  /** A vertex that is a self loop or a tree root joins no list. */
  lemma ListsSkip(grey: seq<int>, parent: seq<int>, next: seq<int>, lists: seq<seq<int>>, i: int)
    requires Lists(grey, parent, next, lists, i) && i < |grey|
    requires grey[i] == -1 || parent[i] == i
    ensures Lists(grey, parent, next, lists, i + 1)
  {
    var j := i + 1;
    forall r | 0 <= r < |grey| && TreeRoot(grey, parent, r)
      ensures ListAt(grey, parent, next, lists[r], r, j)
    {
      assert ListAt(grey, parent, next, lists[r], r, i);
    }
  }

  /** The list after inserting x behind position j. */
  function InsertAfter(xs: seq<int>, j: int, x: int): (ys: seq<int>)
    requires 0 <= j < |xs|
    ensures |ys| == |xs| + 1 && ys[j + 1] == x
    ensures forall t :: 0 <= t <= j ==> ys[t] == xs[t]
    ensures forall t :: j + 1 < t < |ys| ==> ys[t] == xs[t - 1]
    ensures forall v :: v in ys <==> v in xs || v == x
  {
    xs[..j + 1] + [x] + xs[j + 1..]
  }

  /** The list of r once i is inserted behind p, its position j. */
  lemma InsertedList(grey: seq<int>, parent: seq<int>, next: seq<int>, xs: seq<int>,
                     r: int, i: int, p: int, j: int)
    requires Forest(grey, parent) && |next| == |grey| && ListAt(grey, parent, next, xs, r, i)
    requires 0 <= i < |grey| && InTree(grey, parent, i, r) && i != r
    requires 0 <= j < |xs| && xs[j] == p && 0 <= p < i
    ensures ListAt(grey, parent, next[i := next[p]][p := i], InsertAfter(xs, j, i), r, i + 1)
  {
    var next1 := next[i := next[p]][p := i];
    var ys := InsertAfter(xs, j, i);
    assert i !in xs;
    assert LinkAt(next, xs, j);
    forall t | 0 <= t < |ys|
      ensures LinkAt(next1, ys, t)
    {
      if t < j {
        assert LinkAt(next, xs, t);
      } else if j + 1 < t {
        var u := t - 1;
        assert LinkAt(next, xs, u);
      }
    }
    forall a, b | 0 <= a < b < |ys|
      ensures ys[a] != ys[b]
    {
      var a' := if a <= j then a else a - 1;
      var b' := if b <= j then b else b - 1;
      if a != j + 1 && b != j + 1 {
        assert ys[a] == xs[a'] && ys[b] == xs[b'];
      }
    }
  }

  /** Another tree's list is untouched by inserting i behind p. */
  lemma OtherList(grey: seq<int>, parent: seq<int>, next: seq<int>, xs: seq<int>,
                  r: int, i: int, p: int)
    requires Forest(grey, parent) && |next| == |grey| && ListAt(grey, parent, next, xs, r, i)
    requires 0 <= i < |grey| && grey[i] != -1 && Find(grey, parent, i) != r && 0 <= p < i
    requires grey[p] != -1 && Find(grey, parent, p) != r
    ensures ListAt(grey, parent, next[i := next[p]][p := i], xs, r, i + 1)
  {
    var next1 := next[i := next[p]][p := i];
    forall t | 0 <= t < |xs|
      ensures LinkAt(next1, xs, t)
    {
      assert LinkAt(next, xs, t);
      assert xs[t] in xs;
    }
  }

  /** Inserting a vertex i that is not a tree root behind its parent keeps
      every list, and adds i to its own tree's list. */
  lemma ListsInsert(grey: seq<int>, parent: seq<int>, next: seq<int>, lists: seq<seq<int>>, i: int)
    returns (j: int)
    requires Lists(grey, parent, next, lists, i) && i < |grey|
    requires grey[i] != -1 && parent[i] != i
    ensures 0 <= parent[i] < i
    ensures var r := Find(grey, parent, i);
      && 0 <= j < |lists[r]| && lists[r][j] == parent[i]
      && Lists(grey, parent, next[i := next[parent[i]]][parent[i] := i],
               lists[r := InsertAfter(lists[r], j, i)], i + 1)
  {
    var p := parent[i];
    var r := Find(grey, parent, i);
    assert ParentAt(grey, parent, i);
    assert Find(grey, parent, p) == r;
    assert ListAt(grey, parent, next, lists[r], r, i);
    assert p in lists[r];
    j :| 0 <= j < |lists[r]| && lists[r][j] == p;
    var next1 := next[i := next[p]][p := i];
    var lists1 := lists[r := InsertAfter(lists[r], j, i)];
    forall r' | 0 <= r' < |grey| && TreeRoot(grey, parent, r')
      ensures ListAt(grey, parent, next1, lists1[r'], r', i + 1)
    {
      if r' == r {
        InsertedList(grey, parent, next, lists[r], r, i, p, j);
      } else {
        OtherList(grey, parent, next, lists[r'], r', i, p);
      }
    }
  }

  /** The list-building loop of `connected_component`: next starts at -1
      everywhere, a self loop gets cc -1, and every other vertex that is not
      a tree root is inserted behind its parent. At the end the list headed
      by each tree root holds exactly the vertices of its tree. */
  method BuildLists(grey: seq<int>, parent: seq<int>, cc0: seq<int>)
    returns (next: seq<int>, cc: seq<int>, ghost lists: seq<seq<int>>)
    requires Forest(grey, parent) && |cc0| == |grey|
    ensures Lists(grey, parent, next, lists, |grey|)
    ensures |cc| == |grey| && forall v :: 0 <= v < |grey| ==> cc[v] == if grey[v] == -1 then -1 else cc0[v]
  {
    var size := |grey|;
    next := seq(size, _ => -1);
    lists := seq(size, r => [r]);
    ListsInit(grey, parent);
    cc := cc0;
    var i := 0;
    while i < size
      invariant Lists(grey, parent, next, lists, i)
      invariant |cc| == size
      invariant forall v :: 0 <= v < size ==> cc[v] == if grey[v] == -1 && v < i then -1 else cc0[v]
    {
      if grey[i] == -1 {
        cc := cc[i := -1];
        ListsSkip(grey, parent, next, lists, i);
      } else if i != parent[i] {
        ghost var j := ListsInsert(grey, parent, next, lists, i);
        ghost var r := Find(grey, parent, i);
        next := next[i := next[parent[i]]][parent[i] := i];
        lists := lists[r := InsertAfter(lists[r], j, i)];
      } else {
        ListsSkip(grey, parent, next, lists, i);
      }
      i := i + 1;
    }
  }

  /** The inner walk of `connected_component`: follow next from the head of
      list xs to -1, writing k into cc at every vertex passed. */
  method WalkList(next: seq<int>, head: int, ghost xs: seq<int>, k: int, cc0: seq<int>) returns (cc: seq<int>)
    requires |xs| > 0 && xs[0] == head && |cc0| == |next|
    requires forall j :: 0 <= j < |xs| ==> LinkAt(next, xs, j)
    ensures |cc| == |cc0|
    ensures forall v :: 0 <= v < |cc| ==> cc[v] == if v in xs then k else cc0[v]
  {
    cc := cc0;
    assert LinkAt(next, xs, 0);
    var p := head;
    ghost var t := 0;
    while p != -1
      invariant 0 <= t <= |xs| && p == (if t < |xs| then xs[t] else -1)
      invariant t < |xs| ==> 0 <= p
      invariant |cc| == |cc0|
      invariant forall v :: 0 <= v < |cc| ==> cc[v] == if v in xs[..t] then k else cc0[v]
      decreases |xs| - t
    {
      assert LinkAt(next, xs, t);
      assert t + 1 < |xs| ==> LinkAt(next, xs, t + 1);
      assert xs[..t + 1] == xs[..t] + [p];
      cc := cc[p := k];
      p := next[p];
      t := t + 1;
    }
    assert xs[..t] == xs;
  }

  /** cc at v agrees with the components recorded in comps[..k]. */
  ghost predicate CcAt(grey: seq<int>, parent: seq<int>, comps: seq<int>, cc: seq<int>, v: int, k: int)
    requires Forest(grey, parent) && 0 <= v < |grey| == |cc| && 0 <= k <= |comps|
  {
    && (grey[v] == -1 ==> cc[v] == -1)
    && (grey[v] != -1 && Find(grey, parent, v) in comps[..k] ==>
          0 <= cc[v] < k && comps[cc[v]] == Find(grey, parent, v))
  }

  /** Recorded components: distinct tree roots. */
  ghost predicate CompRoots(grey: seq<int>, parent: seq<int>, comps: seq<int>) {
    && Distinct(comps)
    && forall k :: 0 <= k < |comps| ==> TreeRoot(grey, parent, comps[k])
  }

  /** Walking the list of comps[k] labels its whole tree with k. */
  lemma WalkLabels(grey: seq<int>, parent: seq<int>, next: seq<int>, lists: seq<seq<int>>,
                   comps: seq<int>, cc: seq<int>, cc1: seq<int>, k: int, j: int)
    requires Lists(grey, parent, next, lists, |grey|) && CompRoots(grey, parent, comps)
    requires 0 <= k < |comps| && j == k + 1 && |cc| == |grey| == |cc1|
    requires forall v :: 0 <= v < |grey| ==> CcAt(grey, parent, comps, cc, v, k)
    requires forall v :: 0 <= v < |grey| ==> cc1[v] == if v in lists[comps[k]] then k else cc[v]
    ensures forall v :: 0 <= v < |grey| ==> CcAt(grey, parent, comps, cc1, v, j)
  {
    var r := comps[k];
    assert TreeRoot(grey, parent, r);
    assert ListAt(grey, parent, next, lists[r], r, |grey|);
    forall v | 0 <= v < |grey|
      ensures CcAt(grey, parent, comps, cc1, v, j)
    {
      assert CcAt(grey, parent, comps, cc, v, k);
      assert comps[..j] == comps[..k] + [r];
    }
  }

  /** The labelling loop of `connected_component`: every vertex of the
      tree of comps[k] gets cc k; self loops keep -1. */
  method LabelComponents(grey: seq<int>, parent: seq<int>, comps: seq<int>, next: seq<int>,
                         ghost lists: seq<seq<int>>, cc0: seq<int>)
    returns (cc: seq<int>)
    requires Lists(grey, parent, next, lists, |grey|) && CompRoots(grey, parent, comps)
    requires |cc0| == |grey| && forall v :: 0 <= v < |grey| && grey[v] == -1 ==> cc0[v] == -1
    ensures |cc| == |grey|
    ensures forall v :: 0 <= v < |grey| ==> CcAt(grey, parent, comps, cc, v, |comps|)
  {
    cc := cc0;
    var k := 0;
    while k < |comps|
      invariant 0 <= k <= |comps| && |cc| == |grey|
      invariant forall v :: 0 <= v < |grey| ==> CcAt(grey, parent, comps, cc, v, k)
    {
      assert TreeRoot(grey, parent, comps[k]);
      assert ListAt(grey, parent, next, lists[comps[k]], comps[k], |grey|);
      var cc1 := WalkList(next, comps[k], lists[comps[k]], k, cc);
      WalkLabels(grey, parent, next, lists, comps, cc, cc1, k, k + 1);
      cc := cc1;
      k := k + 1;
    }
  }

  /** `connected_component`: group the cycles into components, recorded in
      comps by their root vertex in the order they close, and write into cc
      the index of every vertex's component, -1 at self loops. cc0 is the
      prior content of the cc array; the source uses it as the scan's stack
      of ranges, and none of it survives. parent is the union-find forest the
      source leaves in the array of cycle labels. */
  method ConnectedComponent(grey: seq<int>, lbl: seq<int>, cc0: seq<int>)
    returns (comps: seq<int>, cc: seq<int>, parent: seq<int>)
    requires Labelled(grey, lbl) && |cc0| == |grey|
    ensures Distinct(comps) && |cc| == |grey| && Forest(grey, parent)
    ensures forall k :: 0 <= k < |comps| ==> CycleRoot(lbl, comps[k]) && cc[comps[k]] == k
    ensures forall v :: 0 <= v < |grey| ==> (cc[v] == -1 <==> grey[v] == -1)
    ensures forall v :: 0 <= v < |grey| && grey[v] != -1 ==>
      && 0 <= cc[v] < |comps| && comps[cc[v]] == Find(grey, parent, v)
      && CycleRoot(lbl, lbl[v]) && cc[v] == cc[lbl[v]]
    ensures InterleavingClasses(grey, lbl, cc) && Numbered(cc)
    ensures |comps| == EndsBelow(cc, |cc|)
  {
    var rng := CycleEnds(grey, lbl);
    ghost var ends;
    parent, comps, ends := ScanComponents(grey, lbl, rng);
    var next, cc1, lists := BuildLists(grey, parent, cc0);
    cc := LabelComponents(grey, parent, comps, next, lists, cc1);
    forall k | 0 <= k < |comps|
      ensures CycleRoot(lbl, comps[k]) && cc[comps[k]] == k
    {
      CompLabelled(grey, lbl, parent, comps, cc, k);
    }
    forall v | 0 <= v < |grey|
      ensures cc[v] == -1 <==> grey[v] == -1
      ensures grey[v] != -1 ==>
        && 0 <= cc[v] < |comps| && comps[cc[v]] == Find(grey, parent, v)
        && CycleRoot(lbl, lbl[v]) && cc[v] == cc[lbl[v]]
    {
      VertexLabelled(grey, lbl, parent, comps, cc, v);
    }
    ComponentsExact(grey, lbl, parent, comps, cc, ends);
  }

  /** The labelling written by `connected_component` is the canonical
      labelling of the interleaving components: it separates exactly the
      unconnected cycles, and numbers the components by their last
      vertices, the closing vertices the scan recorded. */
  lemma ComponentsExact(grey: seq<int>, lbl: seq<int>, parent: seq<int>, comps: seq<int>,
                        cc: seq<int>, ends: seq<int>)
    requires Labelled(grey, lbl) && CcOfTrees(grey, parent, comps, cc) && EndsOfTrees(grey, parent, comps, ends)
    requires forall u, v :: 0 <= u < |grey| && 0 <= v < |grey| && grey[u] != -1 && grey[v] != -1 ==>
      (Find(grey, parent, u) == Find(grey, parent, v) <==> Connected(grey, lbl, lbl[u], lbl[v]))
    ensures InterleavingClasses(grey, lbl, cc) && Numbered(cc)
    ensures |comps| == EndsBelow(cc, |cc|)
  {
    ComponentClasses(grey, lbl, parent, comps, cc);
    ComponentsNumbered(grey, parent, comps, cc, ends);
  }

  lemma ComponentClasses(grey: seq<int>, lbl: seq<int>, parent: seq<int>, comps: seq<int>, cc: seq<int>)
    requires Labelled(grey, lbl) && CcOfTrees(grey, parent, comps, cc)
    requires forall u, v :: 0 <= u < |grey| && 0 <= v < |grey| && grey[u] != -1 && grey[v] != -1 ==>
      (Find(grey, parent, u) == Find(grey, parent, v) <==> Connected(grey, lbl, lbl[u], lbl[v]))
    ensures InterleavingClasses(grey, lbl, cc)
  {
    forall u, v
      ensures ClassesAt(grey, lbl, cc, u, v)
    {
      if 0 <= u < |grey| && 0 <= v < |grey| && grey[u] != -1 && grey[v] != -1 {
        SameComponent(grey, parent, comps, cc, u, v);
      }
    }
  }

  lemma ComponentsNumbered(grey: seq<int>, parent: seq<int>, comps: seq<int>, cc: seq<int>, ends: seq<int>)
    requires CcOfTrees(grey, parent, comps, cc) && EndsOfTrees(grey, parent, comps, ends)
    ensures Numbered(cc) && |comps| == EndsBelow(cc, |cc|)
  {
    forall k | 0 <= k < |ends|
      ensures ClassEnd(cc, ends[k]) && cc[ends[k]] == k
    {
      RecordedEnd(grey, parent, comps, cc, ends, k);
    }
    forall w | ClassEnd(cc, w)
      ensures w in ends
    {
      EndListed(grey, parent, comps, cc, ends, w);
    }
    EndsCounted(cc, ends);
    forall v
      ensures NumberedAt(cc, v)
    {
      if 0 <= v < |cc| && cc[v] != -1 {
        VertexNumbered(grey, parent, comps, cc, ends, v);
      }
    }
  }

  /** Every last vertex of a component was recorded as a closing vertex. */
  lemma EndListed(grey: seq<int>, parent: seq<int>, comps: seq<int>, cc: seq<int>, ends: seq<int>, w: int)
    requires CcOfTrees(grey, parent, comps, cc) && EndsOfTrees(grey, parent, comps, ends)
    requires ClassEnd(cc, w)
    ensures w in ends
  {
    var k := cc[w];
    RecordedEnd(grey, parent, comps, cc, ends, k);
    assert forall x :: w < x < |cc| ==> cc[x] != cc[w];
    assert forall x :: ends[k] < x < |cc| ==> cc[x] != k;
    assert ends[k] == w;
  }

  lemma VertexNumbered(grey: seq<int>, parent: seq<int>, comps: seq<int>, cc: seq<int>, ends: seq<int>, v: int)
    requires CcOfTrees(grey, parent, comps, cc) && |ends| == |comps|
    requires forall k :: 0 <= k < |ends| ==> 0 <= ends[k] < |cc| && ClassEnd(cc, ends[k]) && cc[ends[k]] == k
    requires forall k :: 0 <= k < |ends| ==> 0 <= ends[k] < |cc| && EndsBelow(cc, ends[k]) == k
    requires 0 <= v < |cc| && cc[v] != -1
    ensures NumberedAt(cc, v)
  {
    var w := ends[cc[v]];
    assert ClassEnd(cc, w) && cc[w] == cc[v] && cc[v] == EndsBelow(cc, w);
  }

  /** cc gives every vertex that is not a self loop the index of its tree
      among the distinct recorded components, and -1 to self loops. */
  ghost predicate CcOfTrees(grey: seq<int>, parent: seq<int>, comps: seq<int>, cc: seq<int>) {
    && Forest(grey, parent) && Distinct(comps) && |cc| == |grey|
    && (forall v :: 0 <= v < |grey| ==> (cc[v] == -1 <==> grey[v] == -1))
    && forall v :: 0 <= v < |grey| && grey[v] != -1 ==>
         0 <= cc[v] < |comps| && comps[cc[v]] == Find(grey, parent, v)
  }

  /** ends[k], increasing in k, is the last vertex of the tree of comps[k]. */
  ghost predicate EndsOfTrees(grey: seq<int>, parent: seq<int>, comps: seq<int>, ends: seq<int>) {
    && Forest(grey, parent) && |ends| == |comps| && Increasing(ends)
    && (forall k :: 0 <= k < |comps| ==>
          0 <= ends[k] < |grey| && grey[ends[k]] != -1 && Find(grey, parent, ends[k]) == comps[k])
    && forall k, v :: (0 <= k < |comps| && 0 <= v < |grey| && grey[v] != -1 &&
         Find(grey, parent, v) == comps[k]) ==> v <= ends[k]
  }

  lemma SameComponent(grey: seq<int>, parent: seq<int>, comps: seq<int>, cc: seq<int>, u: int, v: int)
    requires CcOfTrees(grey, parent, comps, cc)
    requires 0 <= u < |grey| && 0 <= v < |grey| && grey[u] != -1 && grey[v] != -1
    ensures cc[u] == cc[v] <==> Find(grey, parent, u) == Find(grey, parent, v)
  {
    assert cc[u] == cc[v] <==> comps[cc[u]] == comps[cc[v]];
  }

  /** The recorded closing vertex of component k is the last vertex with
      index k. */
  lemma RecordedEnd(grey: seq<int>, parent: seq<int>, comps: seq<int>, cc: seq<int>, ends: seq<int>, k: int)
    requires CcOfTrees(grey, parent, comps, cc) && EndsOfTrees(grey, parent, comps, ends)
    requires 0 <= k < |comps|
    ensures 0 <= ends[k] < |cc| && cc[ends[k]] == k && ClassEnd(cc, ends[k])
  {
    var e := ends[k];
    assert comps[cc[e]] == comps[k];
  }

  /** A recorded component's root is a cycle root labelled with its own
      index. */
  lemma CompLabelled(grey: seq<int>, lbl: seq<int>, parent: seq<int>, comps: seq<int>, cc: seq<int>, k: int)
    requires Labelled(grey, lbl) && Forest(grey, parent) && |cc| == |grey|
    requires forall v :: 0 <= v < |grey| && grey[v] != -1 && lbl[v] != v ==> parent[v] == lbl[v]
    requires CompRoots(grey, parent, comps)
    requires forall v :: 0 <= v < |grey| ==> CcAt(grey, parent, comps, cc, v, |comps|)
    requires 0 <= k < |comps|
    ensures CycleRoot(lbl, comps[k]) && cc[comps[k]] == k
  {
    var r := comps[k];
    assert TreeRoot(grey, parent, r);
    assert ClosedAt(grey, lbl, r);
    assert CcAt(grey, parent, comps, cc, r, |comps|);
    assert comps[..|comps|] == comps;
  }

  /** A vertex's label is its component's index, shared along its cycle, and
      -1 exactly at a self loop. */
  lemma VertexLabelled(grey: seq<int>, lbl: seq<int>, parent: seq<int>, comps: seq<int>, cc: seq<int>, v: int)
    requires Labelled(grey, lbl) && Forest(grey, parent) && |cc| == |grey|
    requires forall u :: 0 <= u < |grey| && grey[u] != -1 && lbl[u] != u ==> parent[u] == lbl[u]
    requires Distinct(comps)
    requires forall u :: 0 <= u < |grey| && grey[u] != -1 ==> Find(grey, parent, u) in comps
    requires forall u :: 0 <= u < |grey| ==> CcAt(grey, parent, comps, cc, u, |comps|)
    requires 0 <= v < |grey|
    ensures cc[v] == -1 <==> grey[v] == -1
    ensures grey[v] != -1 ==>
      && 0 <= cc[v] < |comps| && comps[cc[v]] == Find(grey, parent, v)
      && CycleRoot(lbl, lbl[v]) && cc[v] == cc[lbl[v]]
  {
    assert CcAt(grey, parent, comps, cc, v, |comps|);
    assert comps[..|comps|] == comps;
    assert ClosedAt(grey, lbl, v);
    if grey[v] != -1 {
      var c := lbl[v];
      assert ParentAt(grey, parent, v);
      assert CcAt(grey, parent, comps, cc, c, |comps|);
      assert Find(grey, parent, v) == Find(grey, parent, c);
      assert comps[cc[v]] == comps[cc[c]];
    }
  }
}
