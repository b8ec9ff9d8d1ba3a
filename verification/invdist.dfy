/**
 The reversal distance between two signed permutations of the same genes
 (`invdist_noncircular` and `invdist_circular` in ext/libd/invdist.cpp):
 build the extended permutation, then apply the Hannenhalli–Pevzner
 formula d = b - c + h + f, with b the breakpoints, c the cycles of the
 breakpoint graph, h the hurdles and f one when the hurdles form a
 fortress.
 */
module InvDist {
  import opened Structs
  import opened Graph
  import opened Extended
  import opened GraphBreakpoints
  import opened Cycles
  import opened Components
  import opened Interleaving
  import opened Hurdles

  /** What the analysis of an extended permutation leaves behind: the
      labelling of its cycles, and the index of every vertex's interleaving
      component, -1 exactly on self loops, the m components numbered in the
      order of their last vertices. Both are determined by perm
      (LabellingUnique, NumberingUnique). */
  ghost predicate Analysed(perm: seq<int>, lbl: seq<int>, cc: seq<int>, m: nat) {
    && IsExtended(perm)
    && var grey := GreyEdgesOf(perm);
    && Labelled(grey, lbl)
    && |cc| == |perm| && CcRange(cc, m)
    && (forall v :: 0 <= v < |grey| ==> (cc[v] == -1 <==> grey[v] == -1))
    && (forall v :: 0 <= v < |grey| && 0 <= lbl[v] < |cc| ==> cc[v] == cc[lbl[v]])
    && InterleavingClasses(grey, lbl, cc) && Numbered(cc) && m == EndsBelow(cc, |cc|)
  }

  /** The Hannenhalli–Pevzner formula over an analysed extended permutation. */
  ghost function Formula(perm: seq<int>, lbl: seq<int>, cc: seq<int>, m: nat): int
    requires Analysed(perm, lbl, cc, m)
  {
    var co := CompOrientation(GreyEdgesOf(perm), cc, m);
    var bs := Collapse(Marks(cc, co));
    Breaks(perm, |perm| / 2) - Roots(lbl, |lbl|) + HurdleCount(co, bs)
      + (if IsFortress(co, bs) then 1 else 0)
  }

  /** d is the formula's value for g2 read from the offset against g1, under
      an analysis of their extended permutation. */
  ghost predicate IsDistance(g1: seq<int>, g2: seq<int>, offset: int, d: int)
    requires Aligned(g1, g2, offset)
  {
    exists lbl, cc, m: nat :: Analysed(ExtendedPerm(g1, g2, offset), lbl, cc, m)
      && d == Formula(ExtendedPerm(g1, g2, offset), lbl, cc, m)
  }

  /** The formula has one value over all analyses of the extended
      permutation: the labelling and the component numbering are unique. */
  lemma DistanceUnique(g1: seq<int>, g2: seq<int>, offset: int, d1: int, d2: int)
    requires Aligned(g1, g2, offset)
    requires IsDistance(g1, g2, offset, d1) && IsDistance(g1, g2, offset, d2)
    ensures d1 == d2
  {
    var perm := ExtendedPerm(g1, g2, offset);
    var lbl1, cc1, m1: nat :| Analysed(perm, lbl1, cc1, m1) && d1 == Formula(perm, lbl1, cc1, m1);
    var lbl2, cc2, m2: nat :| Analysed(perm, lbl2, cc2, m2) && d2 == Formula(perm, lbl2, cc2, m2);
    LabellingUnique(GreyEdgesOf(perm), lbl1, lbl2);
    NumberingUnique(GreyEdgesOf(perm), lbl1, cc1, cc2);
  }

  lemma DistanceWitness(g1: seq<int>, g2: seq<int>, offset: int, lbl: seq<int>, cc: seq<int>, m: nat, d: int)
    requires Aligned(g1, g2, offset)
    requires Analysed(ExtendedPerm(g1, g2, offset), lbl, cc, m)
    requires d == Formula(ExtendedPerm(g1, g2, offset), lbl, cc, m)
    ensures IsDistance(g1, g2, offset, d)
  {
  }

  /** `invdist_noncircular`: g2 is read from the offset (backward with signs
      flipped when the offset is N or more), the extended permutation is
      built, and the formula is evaluated from the breakpoint count, the
      cycle count and the hurdle analysis. The result is never negative, and
      it is zero when g2 read from the offset spells g1. */
  method InvdistNoncircular(g1: seq<int>, g2: seq<int>, offset: int) returns (d: int)
    requires Aligned(g1, g2, offset)
    ensures IsDistance(g1, g2, offset, d) && d >= 0
    ensures forall e :: IsDistance(g1, g2, offset, e) ==> e == d
    ensures (forall i :: 0 <= i < |g1| ==> SlotGene(g2, offset, i) == g1[i]) ==> d == 0
  {
    var perm := BuildExtended(g1, g2, offset);
    var lbl, cc, cs;
    d, lbl, cc, cs := Analyse(perm);
    DistanceWitness(g1, g2, offset, lbl, cc, |cs|, d);
    forall e | IsDistance(g1, g2, offset, e)
      ensures e == d
    {
      DistanceUnique(g1, g2, offset, e, d);
    }
    if forall i :: 0 <= i < |g1| ==> SlotGene(g2, offset, i) == g1[i] {
      AlignedDistance(g1, g2, offset, lbl, cc, |cs|);
    }
  }

  /** When g2 read from the offset spells g1, the formula gives zero. */
  lemma AlignedDistance(g1: seq<int>, g2: seq<int>, offset: int, lbl: seq<int>, cc: seq<int>, m: nat)
    requires Aligned(g1, g2, offset)
    requires forall i :: 0 <= i < |g1| ==> SlotGene(g2, offset, i) == g1[i]
    requires Analysed(ExtendedPerm(g1, g2, offset), lbl, cc, m)
    ensures Formula(ExtendedPerm(g1, g2, offset), lbl, cc, m) == 0
  {
    var perm := ExtendedPerm(g1, g2, offset);
    AlignedIsIdentity(g1, g2, offset);
    IdentityFormula(perm, GreyEdgesOf(perm), lbl, cc, m);
  }

  /** The second half of `invdist_noncircular`: breakpoints, cycles and
      hurdles of an extended permutation, combined as b - c + h + f. */
  method Analyse(perm: seq<int>) returns (d: int, lbl: seq<int>, cc: seq<int>, cs: seq<Component>)
    requires IsExtended(perm)
    ensures Analysed(perm, lbl, cc, |cs|) && d == Formula(perm, lbl, cc, |cs|) && d >= 0
  {
    var b := NumBreakpoints(perm);
    var c, grey;
    c, grey, lbl := NumCycles(perm);
    var h, f, comps;
    h, f, comps, cc, cs := NumHurdlesAndFortress(grey, lbl, NewWorkspace(|perm|).cc);
    d := b - c + h + f;
    Evaluated(perm, grey, lbl, cc, |cs|, b, c, h, f);
  }

  /** The three counts of the source are the formula's terms. */
  lemma Evaluated(perm: seq<int>, grey: seq<int>, lbl: seq<int>, cc: seq<int>, m: nat,
                  b: int, c: int, h: int, f: int)
    requires IsExtended(perm) && grey == GreyEdgesOf(perm) && Labelled(grey, lbl)
    requires b == Breaks(perm, |perm| / 2) && c == Roots(lbl, |lbl|)
    requires |cc| == |grey| && CcRange(cc, m)
    requires forall v :: 0 <= v < |grey| ==> (cc[v] == -1 <==> grey[v] == -1)
    requires forall v :: 0 <= v < |grey| && grey[v] != -1 ==> CycleRoot(lbl, lbl[v]) && cc[v] == cc[lbl[v]]
    requires var co := CompOrientation(grey, cc, m); var bs := Collapse(Marks(cc, co));
      h == HurdleCount(co, bs) && f == (if IsFortress(co, bs) then 1 else 0)
    requires InterleavingClasses(grey, lbl, cc) && Numbered(cc) && m == EndsBelow(cc, |cc|)
    ensures Analysed(perm, lbl, cc, m)
    ensures b - c + h + f == Formula(perm, lbl, cc, m) >= 0
  {
    assert Analysed(perm, lbl, cc, m) by {
      forall v | 0 <= v < |grey| && 0 <= lbl[v] < |cc|
        ensures cc[v] == cc[lbl[v]]
      {
      }
    }
    assert c <= b by {
      CyclesBelowBreaks(perm, grey, lbl);
    }
  }

  /** `invdist_circular`: the offset is where g1's first gene sits in g2,
      and the linear computation runs from there. */
  method InvdistCircular(g1: seq<int>, g2: seq<int>) returns (d: int)
    requires SignedPermutation(g1) && SignedPermutation(g2) && |g1| == |g2| >= 1
    ensures Aligned(g1, g2, CalculateOffset(g1, g2))
    ensures IsDistance(g1, g2, CalculateOffset(g1, g2), d) && d >= 0
    ensures forall e :: IsDistance(g1, g2, CalculateOffset(g1, g2), e) ==> e == d
    ensures (forall i :: 0 <= i < |g1| ==> SlotGene(g2, CalculateOffset(g1, g2), i) == g1[i]) ==> d == 0
  {
    var offset := CalculateOffset(g1, g2);
    OffsetFound(g1, g2);
    d := InvdistNoncircular(g1, g2, offset);
  }

  /** Of the two vertices of a black pair only the first can start a
      cycle, and only when it has a grey edge. */
  lemma PairRoots(grey: seq<int>, lbl: seq<int>, k: int)
    requires Labelled(grey, lbl) && 0 <= k && 2 * k + 1 < |grey|
    ensures lbl[2 * k + 1] != 2 * k + 1
    ensures lbl[2 * k] == 2 * k ==> grey[2 * k] != -1
  {
    assert ClosedAt(grey, lbl, 2 * k) && ClosedAt(grey, lbl, 2 * k + 1);
    assert Mate(2 * k + 1) == 2 * k;
  }

  /** Pair k holds at most one cycle start, and only if it is a breakpoint. */
  predicate PairBounded(perm: seq<int>, lbl: seq<int>, k: int)
    requires 0 <= k && 2 * k + 1 < |perm| == |lbl|
  {
    lbl[2 * k + 1] != 2 * k + 1 && (lbl[2 * k] == 2 * k ==> BreakpointAt(perm, k))
  }

  /** Counting pair by pair: no more cycle starts than breakpoints. */
  lemma {:induction false} RootsBelowBreaks(perm: seq<int>, lbl: seq<int>, j: nat)
    requires |lbl| == |perm| && 2 * j <= |perm|
    requires forall k :: 0 <= k < j ==> PairBounded(perm, lbl, k)
    ensures Roots(lbl, 2 * j) <= Breaks(perm, j)
  {
    if j > 0 {
      var k := j - 1;
      RootsBelowBreaks(perm, lbl, k);
      assert PairBounded(perm, lbl, k);
    }
  }

  /** Each cycle starts at a vertex whose black pair is a breakpoint, and
      the two vertices of a pair never both start a cycle: there are no
      more cycles than breakpoints. */
  lemma CyclesBelowBreaks(perm: seq<int>, grey: seq<int>, lbl: seq<int>)
    requires IsExtended(perm) && grey == GreyEdgesOf(perm) && Labelled(grey, lbl)
    ensures Roots(lbl, |lbl|) <= Breaks(perm, |perm| / 2)
  {
    forall k | 0 <= k && 2 * k + 1 < |perm|
      ensures PairBounded(perm, lbl, k)
    {
      PairBoundedAt(perm, grey, lbl, k);
    }
    RootsBelowBreaks(perm, lbl, |perm| / 2);
  }

  lemma PairBoundedAt(perm: seq<int>, grey: seq<int>, lbl: seq<int>, k: int)
    requires IsExtended(perm) && grey == GreyEdgesOf(perm) && Labelled(grey, lbl)
    requires 0 <= k && 2 * k + 1 < |perm|
    ensures PairBounded(perm, lbl, k)
  {
    PairRoots(grey, lbl, k);
    BreakpointIsGrey(perm, k);
  }

  /** The identity's analysis: no breakpoints, no cycles and, with every
      vertex a self loop, no blocks and so no hurdles. */
  lemma IdentityFormula(perm: seq<int>, grey: seq<int>, lbl: seq<int>, cc: seq<int>, m: nat)
    requires Analysed(perm, lbl, cc, m) && grey == GreyEdgesOf(perm) && perm == Identity(|perm|)
    ensures Formula(perm, lbl, cc, m) == 0
  {
    var n := |perm|;
    forall p | 0 <= p < n
      ensures grey[p] == -1 && cc[p] == -1
    {
      IdentityLoops(n, p);
    }
    NoEdgesNoRoots(grey, lbl, n);
    IdentityNoBreaks(n, n / 2);
    var co := CompOrientation(grey, cc, m);
    LoopsNoMarks(cc, co);
    assert HurdleSeq(co, []) == seq(m, _ => false);
  }

  /** Self loops leave no mark. */
  lemma {:induction false} LoopsNoMarks(cc: seq<int>, co: seq<bool>)
    requires forall v :: 0 <= v < |cc| ==> cc[v] == -1
    ensures CcRange(cc, |co|) && Marks(cc, co) == []
    decreases |cc|
  {
    if cc != [] {
      var front := cc[..|cc| - 1];
      assert forall v :: 0 <= v < |front| ==> front[v] == cc[v];
      LoopsNoMarks(front, co);
    }
  }
}
