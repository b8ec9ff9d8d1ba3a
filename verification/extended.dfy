/**
 The alignment offset of a circular genome and the extended permutation of a
 genome pair (ext/libd/invdist.cpp: `calculate_offset` and the first half of
 `invdist_noncircular`).

 Gene v at position k of g1 becomes the two markers 2k+1, 2k+2. Every gene of
 g2, read from the offset, is written as the g1-ranks of its two markers, in
 the order its sign gives; the result is bracketed by 0 and n-1, n = 2N+2.
 */
module Extended {
  import opened Structs
  import opened Counting

  /* ---------------- Genes and markers ---------------- */

  /** The genes 1..N each occur exactly once, with either sign. The pipeline
      relies on this: any other identifier indexes outside its arrays. */
  predicate SignedPermutation(g: seq<int>) {
    && (forall i :: 0 <= i < |g| ==> 1 <= Abs(g[i]) <= |g|)
    && (forall i, j :: 0 <= i < j < |g| ==> Abs(g[i]) != Abs(g[j]))
  }

  predicate OccursFrom(g: seq<int>, a: int, j: int) {
    exists i :: j <= i < |g| && 0 <= i && Abs(g[i]) == a
  }

  /** Every gene 1..N occurs somewhere in a signed permutation. */
  lemma Covers(g: seq<int>)
    requires SignedPermutation(g)
    ensures forall a :: 1 <= a <= |g| ==> OccursFrom(g, a, 0)
  {
    var s := seq(|g|, i requires 0 <= i < |g| => Abs(g[i]) - 1);
    Onto(s, |g|);
    forall a | 1 <= a <= |g|
      ensures OccursFrom(g, a, 0)
    {
      assert a - 1 in s;
    }
  }

  function PositionFrom(g: seq<int>, a: int, j: nat): (k: nat)
    requires j <= |g|
    requires OccursFrom(g, a, j)
    ensures j <= k < |g| && Abs(g[k]) == a
    ensures forall i :: j <= i < k ==> Abs(g[i]) != a
    decreases |g| - j
  {
    if Abs(g[j]) == a then j else PositionFrom(g, a, j + 1)
  }

  /** Where gene a sits in g, either sign. */
  function Position(g: seq<int>, a: int): (k: nat)
    requires SignedPermutation(g) && 1 <= a <= |g|
    ensures k < |g| && Abs(g[k]) == a
    ensures forall i :: 0 <= i < |g| && Abs(g[i]) == a ==> i == k
  {
    Covers(g);
    PositionFrom(g, a, 0)
  }

  /** The marker read first and second for a signed gene. */
  function Head(v: int): int {
    if v > 0 then 2 * v - 1 else -2 * v
  }

  function Tail(v: int): int {
    if v > 0 then 2 * v else -2 * v - 1
  }

  /** The two markers of a gene v are 2|v|-1 and 2|v|, in an order set by the
      sign of v. */
  lemma Markers(v: int)
    requires v != 0
    ensures (Head(v) + 1) / 2 == Abs(v) && (Tail(v) + 1) / 2 == Abs(v)
    ensures Head(v) != Tail(v)
    ensures Head(v) == 2 * Abs(v) - 1 || Head(v) == 2 * Abs(v)
    ensures Tail(v) == 2 * Abs(v) - 1 || Tail(v) == 2 * Abs(v)
    ensures Head(v) == 2 * Abs(v) - 1 <==> v > 0
  {
  }

  /** perm1: the rank in g1 of marker m, 1 <= m <= 2N. */
  function MarkerRank(g1: seq<int>, m: int): int
    requires SignedPermutation(g1) && 1 <= m <= 2 * |g1|
  {
    var k := Position(g1, (m + 1) / 2);
    if m == Head(g1[k]) then 2 * k + 1 else 2 * k + 2
  }

  /** The gene of g2 placed in slot i: read forward from the offset, or, for an
      offset of N or more, backward from offset-N with the signs flipped. Both
      operands of `%` are non-negative here, so the C remainder agrees with
      Dafny's. */
  function SlotGene(g2: seq<int>, offset: int, i: int): int
    requires 1 <= |g2| && 0 <= offset < 2 * |g2| && 0 <= i < |g2|
  {
    var n := |g2|;
    if offset < n then g2[(offset + i) % n] else -g2[(offset - i) % n]
  }

  function SlotIndex(n: int, offset: int, i: int): int
    requires 1 <= n && 0 <= offset < 2 * n && 0 <= i < n
  {
    if offset < n then (offset + i) % n else (offset - i) % n
  }

  lemma ModOnce(x: int, n: int)
    requires 1 <= n && 0 <= x < 2 * n
    ensures x % n == if x < n then x else x - n
  {
    if x >= n {
      assert x == n * 1 + (x - n);
    }
  }

  /** Distinct slots read distinct positions of g2. */
  lemma SlotIndexInjective(n: int, offset: int, i: int, j: int)
    requires 1 <= n && 0 <= offset < 2 * n && 0 <= i < n && 0 <= j < n
    ensures 0 <= SlotIndex(n, offset, i) < n
    ensures SlotIndex(n, offset, i) == SlotIndex(n, offset, j) ==> i == j
  {
    if offset < n {
      ModOnce(offset + i, n);
      ModOnce(offset + j, n);
    } else {
      ModOnce(offset - i, n);
      ModOnce(offset - j, n);
    }
  }

  /** The inputs `invdist_noncircular` relies on: two signed permutations of
      the same N >= 1 genes and an offset in [0, 2N). */
  predicate Aligned(g1: seq<int>, g2: seq<int>, offset: int) {
    && SignedPermutation(g1) && SignedPermutation(g2)
    && |g1| == |g2| && |g1| >= 1
    && 0 <= offset < 2 * |g1|
  }

  lemma SlotGeneIsGene(g1: seq<int>, g2: seq<int>, offset: int, i: int)
    requires Aligned(g1, g2, offset) && 0 <= i < |g1|
    ensures 1 <= Abs(SlotGene(g2, offset, i)) <= |g1|
    ensures SlotGene(g2, offset, i) != 0
  {
    SlotIndexInjective(|g2|, offset, i, i);
  }

  /* ---------------- The extended permutation ---------------- */

  /** The value the extended permutation holds at position p: 0 and n-1 at
      the ends; in between, the g1-rank of the marker of the slot's gene that
      is read first (odd p) or second (even p). */
  function Entry(g1: seq<int>, g2: seq<int>, offset: int, p: int): int
    requires Aligned(g1, g2, offset) && 0 <= p < 2 * |g1| + 2
  {
    if p == 0 then 0
    else if p == 2 * |g1| + 1 then p
    else
      var g := SlotGene(g2, offset, (p - 1) / 2);
      SlotGeneIsGene(g1, g2, offset, (p - 1) / 2);
      Markers(g);
      MarkerRank(g1, if p % 2 == 1 then Head(g) else Tail(g))
  }

  /** Reference definition of the extended permutation. */
  function ExtendedPerm(g1: seq<int>, g2: seq<int>, offset: int): (perm: seq<int>)
    requires Aligned(g1, g2, offset)
    ensures |perm| == 2 * |g1| + 2
    ensures forall p :: 0 <= p < |perm| ==> perm[p] == Entry(g1, g2, offset, p)
  {
    seq(2 * |g1| + 2, p requires 0 <= p < 2 * |g1| + 2 => Entry(g1, g2, offset, p))
  }

  /** The two markers of one gene sit in slots 2i+1, 2i+2 as 2k+1, 2k+2 in
      either order. */
  predicate PairedSlot(a: int, b: int) {
    (a % 2 == 1 && b == a + 1) || (a % 2 == 0 && a >= 2 && b == a - 1)
  }

  /** An extended permutation: a permutation of [0, n), n even, fixing 0 and
      n-1, whose slots hold the two markers of one gene each. */
  predicate IsExtended(perm: seq<int>) {
    && |perm| >= 2 && |perm| % 2 == 0
    && InRange(perm, |perm|) && Distinct(perm)
    && perm[0] == 0 && perm[|perm| - 1] == |perm| - 1
    && forall p :: 1 <= p < |perm| - 1 && p % 2 == 1 ==> SlotHolds(perm, p)
  }

  /** Slot (p, p+1) holds both markers of one gene. */
  predicate SlotHolds(perm: seq<int>, p: int)
    requires 0 <= p < |perm| - 1
  {
    PairedSlot(perm[p], perm[p + 1])
  }

  /** The g1-rank pair a slot receives: the two markers of gene g, ranked. */
  lemma SlotRanks(g1: seq<int>, g: int)
    requires SignedPermutation(g1) && g != 0 && 1 <= Abs(g) <= |g1|
    ensures
      var k := Position(g1, Abs(g));
      var a := MarkerRank(g1, Head(g));
      var b := MarkerRank(g1, Tail(g));
      ((a == 2 * k + 1 && b == 2 * k + 2) || (a == 2 * k + 2 && b == 2 * k + 1))
      && (g == g1[k] ==> a == 2 * k + 1)
  {
    Markers(g);
    var k := Position(g1, Abs(g));
    Markers(g1[k]);
  }

  /** The g1-position of the gene placed in slot i. */
  function SlotRank(g1: seq<int>, g2: seq<int>, offset: int, i: int): (k: int)
    requires Aligned(g1, g2, offset) && 0 <= i < |g1|
    ensures 0 <= k < |g1|
  {
    SlotGeneIsGene(g1, g2, offset, i);
    Position(g1, Abs(SlotGene(g2, offset, i)))
  }

  /** Distinct slots hold distinct genes. */
  lemma SlotRankInjective(g1: seq<int>, g2: seq<int>, offset: int, i: int, j: int)
    requires Aligned(g1, g2, offset) && 0 <= i < |g1| && 0 <= j < |g1| && i != j
    ensures SlotRank(g1, g2, offset, i) != SlotRank(g1, g2, offset, j)
  {
    SlotIndexInjective(|g1|, offset, i, j);
    SlotGeneIsGene(g1, g2, offset, i);
    SlotGeneIsGene(g1, g2, offset, j);
    assert Abs(SlotGene(g2, offset, i)) != Abs(SlotGene(g2, offset, j));
  }

  /** Each inner position p holds a marker of the gene ranked SlotRank. */
  lemma EntryRank(g1: seq<int>, g2: seq<int>, offset: int, p: int)
    requires Aligned(g1, g2, offset) && 1 <= p < 2 * |g1| + 1
    ensures
      var k := SlotRank(g1, g2, offset, (p - 1) / 2);
      Entry(g1, g2, offset, p) == 2 * k + 1 || Entry(g1, g2, offset, p) == 2 * k + 2
  {
    var g := SlotGene(g2, offset, (p - 1) / 2);
    SlotGeneIsGene(g1, g2, offset, (p - 1) / 2);
    SlotRanks(g1, g);
  }

  /** The two positions of a slot hold both markers of its gene. */
  lemma EntryPair(g1: seq<int>, g2: seq<int>, offset: int, p: int)
    requires Aligned(g1, g2, offset) && 1 <= p < 2 * |g1| && p % 2 == 1
    ensures PairedSlot(Entry(g1, g2, offset, p), Entry(g1, g2, offset, p + 1))
  {
    var i := (p - 1) / 2;
    var g := SlotGene(g2, offset, i);
    SlotGeneIsGene(g1, g2, offset, i);
    SlotEntries(g1, g2, offset, p);
    SlotRanks(g1, g);
    PairedRanks(MarkerRank(g1, Head(g)), MarkerRank(g1, Tail(g)), Position(g1, Abs(g)));
  }

  /** Positions p and p+1 of slot (p-1)/2 hold the ranks of its gene's first
      and second marker. */
  lemma SlotEntries(g1: seq<int>, g2: seq<int>, offset: int, p: int)
    requires Aligned(g1, g2, offset) && 1 <= p < 2 * |g1| && p % 2 == 1
    ensures
      var g := SlotGene(g2, offset, (p - 1) / 2);
      && g != 0 && 1 <= Abs(g) <= |g1|
      && Entry(g1, g2, offset, p) == MarkerRank(g1, Head(g))
      && Entry(g1, g2, offset, p + 1) == MarkerRank(g1, Tail(g))
  {
    assert (p + 1 - 1) / 2 == (p - 1) / 2;
    SlotGeneIsGene(g1, g2, offset, (p - 1) / 2);
  }

  lemma PairedRanks(a: int, b: int, k: int)
    requires k >= 0
    requires (a == 2 * k + 1 && b == 2 * k + 2) || (a == 2 * k + 2 && b == 2 * k + 1)
    ensures PairedSlot(a, b)
  {
  }

  /** Two positions in different slots hold different values. */
  lemma EntryDistinct(g1: seq<int>, g2: seq<int>, offset: int, p: int, q: int)
    requires Aligned(g1, g2, offset) && 0 <= p < q < 2 * |g1| + 2
    ensures Entry(g1, g2, offset, p) != Entry(g1, g2, offset, q)
  {
    var n := 2 * |g1| + 2;
    if 1 <= p && q < n - 1 {
      EntryRank(g1, g2, offset, p);
      EntryRank(g1, g2, offset, q);
      var i, j := (p - 1) / 2, (q - 1) / 2;
      if i != j {
        SlotRankInjective(g1, g2, offset, i, j);
      } else {
        assert q == p + 1 && p % 2 == 1;
        EntryPair(g1, g2, offset, p);
      }
    } else if 1 <= p {
      EntryRank(g1, g2, offset, p);
    } else if q < n - 1 {
      EntryRank(g1, g2, offset, q);
    }
  }

  /** The reference construction always yields an extended permutation: 0 and
      n-1 at the ends, every slot one gene's two markers, no value twice. */
  lemma ExtendedWellFormed(g1: seq<int>, g2: seq<int>, offset: int)
    requires Aligned(g1, g2, offset)
    ensures IsExtended(ExtendedPerm(g1, g2, offset))
  {
    var perm := ExtendedPerm(g1, g2, offset);
    var n := |perm|;
    forall p | 0 <= p < n
      ensures 0 <= perm[p] < n
    {
      if 1 <= p < n - 1 {
        EntryRank(g1, g2, offset, p);
      }
    }
    forall p | 1 <= p < n - 1 && p % 2 == 1
      ensures SlotHolds(perm, p)
    {
      EntryPair(g1, g2, offset, p);
    }
    forall p, q | 0 <= p < q < n
      ensures perm[p] != perm[q]
    {
      EntryDistinct(g1, g2, offset, p, q);
    }
  }

  function Identity(n: nat): (r: seq<int>)
    ensures |r| == n
    ensures forall p :: 0 <= p < n ==> r[p] == p
  {
    seq(n, p => p)
  }

  /** When g2, read from the offset, spells g1 gene for gene, the extended
      permutation is the identity. */
  lemma AlignedIsIdentity(g1: seq<int>, g2: seq<int>, offset: int)
    requires Aligned(g1, g2, offset)
    requires forall i :: 0 <= i < |g1| ==> SlotGene(g2, offset, i) == g1[i]
    ensures ExtendedPerm(g1, g2, offset) == Identity(2 * |g1| + 2)
  {
    var perm := ExtendedPerm(g1, g2, offset);
    var n := |perm|;
    forall p | 1 <= p < n - 1
      ensures perm[p] == p
    {
      AlignedEntry(g1, g2, offset, p);
    }
  }

  lemma AlignedEntry(g1: seq<int>, g2: seq<int>, offset: int, p: int)
    requires Aligned(g1, g2, offset) && 1 <= p < 2 * |g1| + 1
    requires SlotGene(g2, offset, (p - 1) / 2) == g1[(p - 1) / 2]
    ensures Entry(g1, g2, offset, p) == p
  {
    var i := (p - 1) / 2;
    SlotGeneIsGene(g1, g2, offset, i);
    SlotRanks(g1, g1[i]);
    assert Position(g1, Abs(g1[i])) == i;
  }

  /** `calculate_offset` from index i on. */
  function OffsetFrom(g2: seq<int>, gA: int, i: nat): (r: int)
    requires i <= |g2|
    ensures r == -1 <==> forall j :: i <= j < |g2| ==> g2[j] != gA && g2[j] != -gA
    ensures r == -1 || i <= r < 2 * |g2|
    ensures i <= r < |g2| ==>
      g2[r] == gA && forall j :: i <= j < r ==> g2[j] != gA && g2[j] != -gA
    ensures |g2| <= r ==>
      g2[r - |g2|] == -gA && g2[r - |g2|] != gA
      && forall j :: i <= j < r - |g2| ==> g2[j] != gA && g2[j] != -gA
    decreases |g2| - i
  {
    if i == |g2| then -1
    else if g2[i] == gA then i
    else if g2[i] == -gA then i + |g2|
    else OffsetFrom(g2, gA, i + 1)
  }

  /** `calculate_offset`: the first position of g2 holding g1's first gene,
      that position plus N when the gene is found reversed, or ERR_CONTENT
      when neither occurs. */
  function CalculateOffset(g1: seq<int>, g2: seq<int>): (r: int)
    requires |g1| >= 1
    ensures r == ERR_CONTENT <==> forall j :: 0 <= j < |g2| ==> g2[j] != g1[0] && g2[j] != -g1[0]
    ensures r == ERR_CONTENT || 0 <= r < 2 * |g2|
    ensures 0 <= r < |g2| ==>
      g2[r] == g1[0] && forall j :: 0 <= j < r ==> g2[j] != g1[0] && g2[j] != -g1[0]
    ensures |g2| <= r ==>
      g2[r - |g2|] == -g1[0] && g2[r - |g2|] != g1[0]
      && forall j :: 0 <= j < r - |g2| ==> g2[j] != g1[0] && g2[j] != -g1[0]
  {
    OffsetFrom(g2, g1[0], 0)
  }

  /** Between two signed permutations of the same genes the offset is always
      found. */
  lemma OffsetFound(g1: seq<int>, g2: seq<int>)
    requires SignedPermutation(g1) && SignedPermutation(g2) && |g1| == |g2| >= 1
    ensures Aligned(g1, g2, CalculateOffset(g1, g2))
  {
    Covers(g2);
    assert OccursFrom(g2, Abs(g1[0]), 0);
    var j :| 0 <= j < |g2| && Abs(g2[j]) == Abs(g1[0]);
    assert g2[j] == g1[0] || g2[j] == -g1[0];
  }

  /* ---------------- The builder ---------------- */

  /** The first loop of `invdist_noncircular`: perm1 maps each marker of g1
      to its rank, the markers of the j-th gene to 2j+1 and 2j+2. */
  method ScatterRanks(g1: seq<int>) returns (perm1: seq<int>)
    requires SignedPermutation(g1)
    ensures |perm1| == 2 * |g1| + 2
    ensures forall j :: 0 <= j < |g1| ==>
      0 < Head(g1[j]) <= 2 * |g1| && 0 < Tail(g1[j]) <= 2 * |g1|
      && perm1[Head(g1[j])] == 2 * j + 1 && perm1[Tail(g1[j])] == 2 * j + 2
  {
    var N := |g1|;
    var n := 2 * N + 2;
    perm1 := seq(n, _ => 0);
    var i := 0;
    while i < N
      invariant 0 <= i <= N && |perm1| == n
      invariant forall j :: 0 <= j < i ==>
        0 < Head(g1[j]) <= 2 * N && 0 < Tail(g1[j]) <= 2 * N
        && perm1[Head(g1[j])] == 2 * j + 1 && perm1[Tail(g1[j])] == 2 * j + 2
    {
      Markers(g1[i]);
      ghost var before := perm1;
      var g := 2 * g1[i];
      var twoi := 2 * i + 1;
      if g > 0 {
        perm1 := perm1[g - 1 := twoi][g := twoi + 1];
      } else {
        perm1 := perm1[-g := twoi][-g - 1 := twoi + 1];
      }
      forall j | 0 <= j < i
        ensures perm1[Head(g1[j])] == 2 * j + 1 && perm1[Tail(g1[j])] == 2 * j + 2
      {
        Markers(g1[j]);
        assert Abs(g1[j]) != Abs(g1[i]);
      }
      i := i + 1;
    }
  }

  /** What ScatterRanks computes is the marker rank of every marker. */
  lemma ScatterIsRank(g1: seq<int>, perm1: seq<int>)
    requires SignedPermutation(g1) && |perm1| == 2 * |g1| + 2
    requires forall j :: 0 <= j < |g1| ==>
      0 < Head(g1[j]) <= 2 * |g1| && 0 < Tail(g1[j]) <= 2 * |g1|
      && perm1[Head(g1[j])] == 2 * j + 1 && perm1[Tail(g1[j])] == 2 * j + 2
    ensures forall m :: 1 <= m <= 2 * |g1| ==> perm1[m] == MarkerRank(g1, m)
  {
    forall m | 1 <= m <= 2 * |g1|
      ensures perm1[m] == MarkerRank(g1, m)
    {
      MarkerRankAt(g1, m);
    }
  }

  /** Marker m is the head or the tail of the gene at its position. */
  lemma MarkerRankAt(g1: seq<int>, m: int)
    requires SignedPermutation(g1) && 1 <= m <= 2 * |g1|
    ensures
      var k := Position(g1, (m + 1) / 2);
      && (m == Head(g1[k]) ==> MarkerRank(g1, m) == 2 * k + 1)
      && (m == Tail(g1[k]) ==> MarkerRank(g1, m) == 2 * k + 2)
      && (m == Head(g1[k]) || m == Tail(g1[k]))
  {
    var k := Position(g1, (m + 1) / 2);
    Markers(g1[k]);
  }

  /** The second loop: perm2 lists the markers of g2 read from the offset,
      each gene's two markers in the order its sign gives. */
  method GatherMarkers(g1: seq<int>, g2: seq<int>, offset: int) returns (perm2: seq<int>)
    requires Aligned(g1, g2, offset)
    ensures |perm2| == 2 * |g2| + 2
    ensures forall j :: 0 <= j < |g2| ==>
      perm2[2 * j + 1] == Head(SlotGene(g2, offset, j))
      && perm2[2 * j + 2] == Tail(SlotGene(g2, offset, j))
  {
    var N := |g2|;
    perm2 := seq(2 * N + 2, _ => 0);
    var i := 0;
    while i < N
      invariant 0 <= i <= N && |perm2| == 2 * N + 2
      invariant forall j :: 0 <= j < i ==>
        perm2[2 * j + 1] == Head(SlotGene(g2, offset, j))
        && perm2[2 * j + 2] == Tail(SlotGene(g2, offset, j))
    {
      var g;
      if offset < N {
        g := g2[(offset + i) % N];
      } else {
        g := -g2[(offset - i) % N];
      }
      var twoi := 2 * i + 1;
      if g > 0 {
        perm2 := perm2[twoi := 2 * g - 1][twoi + 1 := 2 * g];
      } else {
        perm2 := perm2[twoi := -2 * g][twoi + 1 := -2 * g - 1];
      }
      i := i + 1;
    }
  }

  /** Position p of the extended permutation is perm1 applied to perm2[p]. */
  lemma ComposeAt(g1: seq<int>, g2: seq<int>, offset: int, perm1: seq<int>, perm2: seq<int>, p: int)
    requires Aligned(g1, g2, offset) && 1 <= p <= 2 * |g1|
    requires |perm1| == 2 * |g1| + 2 && |perm2| == 2 * |g1| + 2
    requires forall m :: 1 <= m <= 2 * |g1| ==> perm1[m] == MarkerRank(g1, m)
    requires forall j :: 0 <= j < |g2| ==>
      perm2[2 * j + 1] == Head(SlotGene(g2, offset, j))
      && perm2[2 * j + 2] == Tail(SlotGene(g2, offset, j))
    ensures 1 <= perm2[p] <= 2 * |g1|
    ensures perm1[perm2[p]] == Entry(g1, g2, offset, p)
  {
    var s := (p - 1) / 2;
    var g := SlotGene(g2, offset, s);
    SlotGeneIsGene(g1, g2, offset, s);
    Markers(g);
    if p % 2 == 0 {
      assert p == 2 * s + 2;
    }
  }

  /** The third loop: position p of the result is perm1[perm2[p]], between
      a leading 0 and a trailing n-1. */
  method Compose(perm1: seq<int>, perm2: seq<int>) returns (perm: seq<int>)
    requires |perm1| == |perm2| >= 2
    requires forall p :: 1 <= p < |perm2| - 1 ==> 0 <= perm2[p] < |perm1|
    ensures |perm| == |perm2| && perm[0] == 0 && perm[|perm| - 1] == |perm| - 1
    ensures forall p :: 1 <= p < |perm| - 1 ==> perm[p] == perm1[perm2[p]]
  {
    var n := |perm2|;
    perm := [0];
    var i := 1;
    while i < n - 1
      invariant 1 <= i <= n - 1 && |perm| == i && perm[0] == 0
      invariant forall p :: 1 <= p < i ==> perm[p] == perm1[perm2[p]]
    {
      perm := perm + [perm1[perm2[i]]];
      i := i + 1;
    }
    perm := perm + [n - 1];
  }

  /** Composing the rank table of g1 with the marker list of g2 yields the
      extended permutation. */
  lemma ComposedIsExtended(g1: seq<int>, g2: seq<int>, offset: int,
                           perm1: seq<int>, perm2: seq<int>, perm: seq<int>)
    requires Aligned(g1, g2, offset)
    requires |perm1| == 2 * |g1| + 2 && |perm2| == 2 * |g1| + 2
    requires forall m :: 1 <= m <= 2 * |g1| ==> perm1[m] == MarkerRank(g1, m)
    requires forall j :: 0 <= j < |g2| ==>
      perm2[2 * j + 1] == Head(SlotGene(g2, offset, j))
      && perm2[2 * j + 2] == Tail(SlotGene(g2, offset, j))
    requires forall p :: 1 <= p < |perm2| - 1 ==> 0 <= perm2[p] < |perm1|
    requires |perm| == |perm2| && perm[0] == 0 && perm[|perm| - 1] == |perm| - 1
    requires forall p :: 1 <= p < |perm| - 1 ==> perm[p] == perm1[perm2[p]]
    ensures perm == ExtendedPerm(g1, g2, offset)
  {
    var target := ExtendedPerm(g1, g2, offset);
    forall p | 0 <= p < |perm|
      ensures perm[p] == target[p]
    {
      if 1 <= p < |perm| - 1 {
        ComposeAt(g1, g2, offset, perm1, perm2, p);
      }
    }
  }

  /** The marker list of g2 holds markers only. */
  lemma MarkersInRange(g1: seq<int>, g2: seq<int>, offset: int, perm2: seq<int>)
    requires Aligned(g1, g2, offset) && |perm2| == 2 * |g1| + 2
    requires forall j :: 0 <= j < |g2| ==>
      perm2[2 * j + 1] == Head(SlotGene(g2, offset, j))
      && perm2[2 * j + 2] == Tail(SlotGene(g2, offset, j))
    ensures forall p :: 1 <= p < |perm2| - 1 ==> 1 <= perm2[p] <= 2 * |g1|
  {
    forall p | 1 <= p < |perm2| - 1
      ensures 1 <= perm2[p] <= 2 * |g1|
    {
      var s := (p - 1) / 2;
      SlotGeneIsGene(g1, g2, offset, s);
      Markers(SlotGene(g2, offset, s));
      if p % 2 == 0 {
        assert p == 2 * s + 2;
      }
    }
  }

  /** The extended-permutation construction of `invdist_noncircular`:
      scatter the marker ranks of g1 into perm1, gather the markers of g2 into
      perm2, and compose them, bracketed by 0 and n-1. */
  method BuildExtended(g1: seq<int>, g2: seq<int>, offset: int) returns (perm: seq<int>)
    requires Aligned(g1, g2, offset)
    ensures perm == ExtendedPerm(g1, g2, offset)
    ensures IsExtended(perm)
    ensures |perm| == 2 * |g1| + 2
  {
    var perm1 := ScatterRanks(g1);
    ScatterIsRank(g1, perm1);
    var perm2 := GatherMarkers(g1, g2, offset);
    MarkersInRange(g1, g2, offset, perm2);
    perm := Compose(perm1, perm2);
    ComposedIsExtended(g1, g2, offset, perm1, perm2, perm);
    ExtendedWellFormed(g1, g2, offset);
  }
}
