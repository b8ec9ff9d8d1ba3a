/**
 The interleaving graph of the cycles of a breakpoint graph, and the
 component labellings it determines.

 Two grey edges (a, grey[a]) and (b, grey[b]) interleave when their ends
 alternate, a < b < grey[a] < grey[b]. Two cycles interleave when a grey
 edge of one interleaves a grey edge of the other; the components of the
 breakpoint graph, in the Hannenhalli–Pevzner sense, are the classes of the
 reflexive and transitive closure of that relation. Cycles are named by
 their labels, as `num_cycles` leaves them.

 A component labelling cc writes -1 at self loops and at every other vertex
 the index of its component, the components numbered 0, 1, ... in the
 order of their last vertices. Two labellings with these properties over the
 same cycles are equal.
 */
module Interleaving {

  /** The grey edges at a and at b interleave, a's edge starting first. */
  predicate EdgesCross(grey: seq<int>, a: int, b: int) {
    0 <= a < |grey| && 0 <= b < |grey| && a < b < grey[a] < grey[b]
  }

  /** Cycles c and t interleave. */
  ghost predicate Interleave(grey: seq<int>, lbl: seq<int>, c: int, t: int)
    requires |lbl| == |grey|
  {
    exists a, b :: EdgesCross(grey, a, b) &&
      ((lbl[a] == c && lbl[b] == t) || (lbl[a] == t && lbl[b] == c))
  }

  /** p is a path of cycles in the interleaving graph. */
  ghost predicate Chain(grey: seq<int>, lbl: seq<int>, p: seq<int>)
    requires |lbl| == |grey|
  {
    |p| >= 1 && forall k :: 0 <= k < |p| - 1 ==> Interleave(grey, lbl, p[k], p[k + 1])
  }

  /** Cycles c and t lie in one component. */
  ghost predicate Connected(grey: seq<int>, lbl: seq<int>, c: int, t: int)
    requires |lbl| == |grey|
  {
    exists p :: Chain(grey, lbl, p) && p[0] == c && p[|p| - 1] == t
  }

  lemma ConnectedRefl(grey: seq<int>, lbl: seq<int>, c: int)
    requires |lbl| == |grey|
    ensures Connected(grey, lbl, c, c)
  {
    assert Chain(grey, lbl, [c]);
  }

  lemma InterleaveSym(grey: seq<int>, lbl: seq<int>, c: int, t: int)
    requires |lbl| == |grey| && Interleave(grey, lbl, c, t)
    ensures Interleave(grey, lbl, t, c)
  {
    var a, b :| EdgesCross(grey, a, b) &&
      ((lbl[a] == c && lbl[b] == t) || (lbl[a] == t && lbl[b] == c));
  }

  /** Interleaving cycles lie in one component. */
  lemma ConnectedStep(grey: seq<int>, lbl: seq<int>, c: int, t: int)
    requires |lbl| == |grey| && Interleave(grey, lbl, c, t)
    ensures Connected(grey, lbl, c, t)
  {
    assert Chain(grey, lbl, [c, t]);
  }

  lemma ConnectedTrans(grey: seq<int>, lbl: seq<int>, a: int, b: int, c: int)
    requires |lbl| == |grey|
    requires Connected(grey, lbl, a, b) && Connected(grey, lbl, b, c)
    ensures Connected(grey, lbl, a, c)
  {
    var p :| Chain(grey, lbl, p) && p[0] == a && p[|p| - 1] == b;
    var q :| Chain(grey, lbl, q) && q[0] == b && q[|q| - 1] == c;
    var r := p + q[1..];
    forall k | 0 <= k < |r| - 1
      ensures Interleave(grey, lbl, r[k], r[k + 1])
    {
      if k < |p| - 1 {
        assert r[k] == p[k] && r[k + 1] == p[k + 1];
      } else {
        var j := k - |p| + 1;
        assert r[k] == q[j] && r[k + 1] == q[j + 1];
      }
    }
    assert Chain(grey, lbl, r);
  }

  lemma ConnectedSym(grey: seq<int>, lbl: seq<int>, a: int, b: int)
    requires |lbl| == |grey| && Connected(grey, lbl, a, b)
    ensures Connected(grey, lbl, b, a)
  {
    var p :| Chain(grey, lbl, p) && p[0] == a && p[|p| - 1] == b;
    var r := seq(|p|, k requires 0 <= k < |p| => p[|p| - 1 - k]);
    forall k | 0 <= k < |r| - 1
      ensures Interleave(grey, lbl, r[k], r[k + 1])
    {
      var j := |p| - 2 - k;
      assert Interleave(grey, lbl, p[j], p[j + 1]);
      InterleaveSym(grey, lbl, p[j], p[j + 1]);
    }
    assert Chain(grey, lbl, r);
  }

  /* ---------------- Component labellings ---------------- */

  /** cc marks the self loops with -1 and gives two other vertices the same
      index exactly when their cycles lie in one component. */
  ghost predicate InterleavingClasses(grey: seq<int>, lbl: seq<int>, cc: seq<int>) {
    && |lbl| == |grey| && |cc| == |grey|
    && (forall v :: 0 <= v < |grey| ==> (cc[v] == -1 <==> grey[v] == -1))
    && forall u, v :: ClassesAt(grey, lbl, cc, u, v)
  }

  /** Vertices u and v, when neither is a self loop, share an index exactly
      when their cycles lie in one component. */
  ghost predicate ClassesAt(grey: seq<int>, lbl: seq<int>, cc: seq<int>, u: int, v: int)
    requires |lbl| == |grey| && |cc| == |grey|
  {
    0 <= u < |grey| && 0 <= v < |grey| && grey[u] != -1 && grey[v] != -1 ==>
      (cc[u] == cc[v] <==> Connected(grey, lbl, lbl[u], lbl[v]))
  }

  /** w is the last vertex of its component. */
  predicate ClassEnd(cc: seq<int>, w: int) {
    0 <= w < |cc| && cc[w] != -1 && forall x :: w < x < |cc| ==> cc[x] != cc[w]
  }

  /** The number of components whose last vertex is below x. */
  function EndsBelow(cc: seq<int>, x: int): (e: nat)
    requires 0 <= x <= |cc|
    ensures e <= x
  {
    if x == 0 then 0 else EndsBelow(cc, x - 1) + (if ClassEnd(cc, x - 1) then 1 else 0)
  }

  /** Components are numbered in the order of their last vertices: the
      index of a component is the number of components ending before it. */
  ghost predicate Numbered(cc: seq<int>) {
    forall v :: NumberedAt(cc, v)
  }

  /** The index of vertex v, unless it is a self loop, counts the
      components ending before the last vertex of v's component. */
  ghost predicate NumberedAt(cc: seq<int>, v: int) {
    0 <= v < |cc| && cc[v] != -1 ==>
      exists w :: ClassEnd(cc, w) && cc[w] == cc[v] && cc[v] == EndsBelow(cc, w)
  }

  /** Two labellings of the same components whose ends coincide count the
      same number of ends below every vertex. */
  lemma {:induction false} EndsBelowSame(cc1: seq<int>, cc2: seq<int>, x: int)
    requires |cc1| == |cc2| && 0 <= x <= |cc1|
    requires forall w :: 0 <= w < |cc1| ==> (ClassEnd(cc1, w) <==> ClassEnd(cc2, w))
    ensures EndsBelow(cc1, x) == EndsBelow(cc2, x)
  {
    if x > 0 {
      EndsBelowSame(cc1, cc2, x - 1);
    }
  }

  /** When ends lists the last vertices of all components in increasing
      order, ends[k] has exactly k ends below it. */
  lemma EndsCounted(cc: seq<int>, ends: seq<int>)
    requires forall a, b :: 0 <= a < b < |ends| ==> ends[a] < ends[b]
    requires forall k :: 0 <= k < |ends| ==> ClassEnd(cc, ends[k])
    requires forall w :: ClassEnd(cc, w) ==> w in ends
    ensures EndsBelow(cc, |cc|) == |ends|
    ensures forall k :: 0 <= k < |ends| ==> 0 <= ends[k] < |cc| && EndsBelow(cc, ends[k]) == k
  {
    EndsPrefix(cc, ends, |cc|);
    if |ends| > 0 {
      assert ClassEnd(cc, ends[|ends| - 1]);
    }
    forall k | 0 <= k < |ends|
      ensures EndsBelow(cc, ends[k]) == k
    {
      assert ClassEnd(cc, ends[k]);
      EndsPrefix(cc, ends, ends[k]);
      PrefixIndex(ends, EndsBelow(cc, ends[k]), k, ends[k]);
    }
  }

  /** In an increasing sequence, the elements below ends[j] are the first j. */
  lemma PrefixIndex(ends: seq<int>, e: int, j: int, x: int)
    requires forall a, b :: 0 <= a < b < |ends| ==> ends[a] < ends[b]
    requires 0 <= j < |ends| && 0 <= e <= |ends| && ends[j] == x
    requires forall k :: 0 <= k < |ends| ==> (k < e <==> ends[k] < x)
    ensures e == j
  {
    if j > 0 {
      assert ends[j - 1] < ends[j];
    }
  }

  /** The ends below x are exactly a prefix of ends. */
  lemma {:induction false} EndsPrefix(cc: seq<int>, ends: seq<int>, x: int)
    requires forall a, b :: 0 <= a < b < |ends| ==> ends[a] < ends[b]
    requires forall k :: 0 <= k < |ends| ==> ClassEnd(cc, ends[k])
    requires forall w :: ClassEnd(cc, w) ==> w in ends
    requires 0 <= x <= |cc|
    ensures EndsBelow(cc, x) <= |ends|
    ensures forall k :: 0 <= k < |ends| ==> (k < EndsBelow(cc, x) <==> ends[k] < x)
  {
    if x > 0 {
      EndsPrefix(cc, ends, x - 1);
      var e := EndsBelow(cc, x - 1);
      if ClassEnd(cc, x - 1) {
        var j :| 0 <= j < |ends| && ends[j] == x - 1;
        PrefixIndex(ends, e, j, x - 1);
      }
    }
  }

  /** The labelling of the components of a breakpoint graph is unique. */
  lemma NumberingUnique(grey: seq<int>, lbl: seq<int>, cc1: seq<int>, cc2: seq<int>)
    requires InterleavingClasses(grey, lbl, cc1) && InterleavingClasses(grey, lbl, cc2)
    requires Numbered(cc1) && Numbered(cc2)
    ensures cc1 == cc2
  {
    var n := |grey|;
    forall w | 0 <= w < n
      ensures ClassEnd(cc1, w) <==> ClassEnd(cc2, w)
    {
      if ClassEnd(cc1, w) {
        SameEnd(grey, lbl, cc1, cc2, w);
      }
      if ClassEnd(cc2, w) {
        SameEnd(grey, lbl, cc2, cc1, w);
      }
    }
    forall v | 0 <= v < n
      ensures cc1[v] == cc2[v]
    {
      SameIndex(grey, lbl, cc1, cc2, v);
    }
  }

  /** Both labellings give vertex v the same index. */
  lemma SameIndex(grey: seq<int>, lbl: seq<int>, cc1: seq<int>, cc2: seq<int>, v: int)
    requires InterleavingClasses(grey, lbl, cc1) && InterleavingClasses(grey, lbl, cc2)
    requires Numbered(cc1) && Numbered(cc2)
    requires forall w :: 0 <= w < |grey| ==> (ClassEnd(cc1, w) <==> ClassEnd(cc2, w))
    requires 0 <= v < |grey|
    ensures cc1[v] == cc2[v]
  {
    if grey[v] != -1 {
      assert NumberedAt(cc1, v) && NumberedAt(cc2, v);
      var w1 :| ClassEnd(cc1, w1) && cc1[w1] == cc1[v] && cc1[v] == EndsBelow(cc1, w1);
      var w2 :| ClassEnd(cc2, w2) && cc2[w2] == cc2[v] && cc2[v] == EndsBelow(cc2, w2);
      SameClass(grey, lbl, cc1, cc2, w1, v);
      SameClass(grey, lbl, cc1, cc2, w2, v);
      EndsMeet(cc1, cc2, v, w1, w2);
    }
  }

  /** The ends of v's component in the two labellings coincide, and so do
      the counts of ends below it. */
  lemma EndsMeet(cc1: seq<int>, cc2: seq<int>, v: int, w1: int, w2: int)
    requires |cc1| == |cc2| && 0 <= v < |cc1|
    requires forall w :: 0 <= w < |cc1| ==> (ClassEnd(cc1, w) <==> ClassEnd(cc2, w))
    requires ClassEnd(cc1, w1) && cc1[w1] == cc1[v] && cc1[v] == EndsBelow(cc1, w1)
    requires ClassEnd(cc2, w2) && cc2[w2] == cc2[v] && cc2[v] == EndsBelow(cc2, w2)
    requires cc2[w1] == cc2[v] && cc1[w2] == cc1[v]
    ensures cc1[v] == cc2[v]
  {
    assert forall x :: w1 < x < |cc1| ==> cc1[x] != cc1[w1];
    assert forall x :: w2 < x < |cc2| ==> cc2[x] != cc2[w2];
    assert w1 == w2;
    EndsBelowSame(cc1, cc2, w1);
  }

  /** Labellings of the same components put u and v together alike. */
  lemma SameClass(grey: seq<int>, lbl: seq<int>, cc1: seq<int>, cc2: seq<int>, u: int, v: int)
    requires InterleavingClasses(grey, lbl, cc1) && InterleavingClasses(grey, lbl, cc2)
    requires 0 <= u < |grey| && 0 <= v < |grey| && grey[u] != -1 && grey[v] != -1
    ensures cc1[u] == cc1[v] <==> cc2[u] == cc2[v]
  {
    assert ClassesAt(grey, lbl, cc1, u, v) && ClassesAt(grey, lbl, cc2, u, v);
  }

  /** Labellings of the same components agree on which vertices end one. */
  lemma SameEnd(grey: seq<int>, lbl: seq<int>, cc1: seq<int>, cc2: seq<int>, w: int)
    requires InterleavingClasses(grey, lbl, cc1) && InterleavingClasses(grey, lbl, cc2)
    requires ClassEnd(cc1, w)
    ensures ClassEnd(cc2, w)
  {
    forall x | w < x < |cc2|
      ensures cc2[x] != cc2[w]
    {
      assert cc1[x] != cc1[w];
      if grey[x] != -1 {
        SameClass(grey, lbl, cc1, cc2, x, w);
      }
    }
  }
}
