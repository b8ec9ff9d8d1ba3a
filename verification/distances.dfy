/**
 The direct-form distances between two genomes: the gene-content validators,
 the adjacency matching behind the breakpoint count and the shared-adjacency
 list, and the dispatchers that validate before computing a rearrangement
 distance.

 Every function here sees exactly one chromosome per genome: the source
 computes the chromosome count as `sizeof(pi)/sizeof(Genome *)`, which is
 always 1 (ext/libd/distances.cpp:10-11).
 */
module Distances {
  import opened Structs
  import opened Counting
  import opened Sorting
  import Extended
  import InvDist

  /* ---------------- Validators ---------------- */

  /** `abs()` of a gene as the validators store it: the value is widened to
      `int`, made non-negative and written back into a 16-bit slot, so -32768
      comes back as -32768. */
  function Magnitude(x: Gene): int {
    if x == -32768 then -32768 else Abs(x)
  }

  /** Two genes have the same stored magnitude exactly when they have the same
      absolute value: the 16-bit truncation merges no two classes. */
  lemma MagnitudeFaithful(x: Gene, y: Gene)
    ensures Magnitude(x) == Magnitude(y) <==> Abs(x) == Abs(y)
  {
  }

  function Magnitudes(s: seq<Gene>): seq<int> {
    seq(|s|, i requires 0 <= i < |s| => Magnitude(s[i]))
  }

  /** Reference definition: two genes of the genome share an absolute value. */
  predicate HasDuplicateGenes(s: seq<Gene>) {
    exists i, j :: 0 <= i < j < |s| && Abs(s[i]) == Abs(s[j])
  }

  lemma DuplicatesOfMagnitudes(s: seq<Gene>)
    ensures !Distinct(Magnitudes(s)) <==> HasDuplicateGenes(s)
  {
    var m := Magnitudes(s);
    if !Distinct(m) {
      var i, j :| 0 <= i < j < |m| && m[i] == m[j];
      MagnitudeFaithful(s[i], s[j]);
    }
    if HasDuplicateGenes(s) {
      var i, j :| 0 <= i < j < |s| && Abs(s[i]) == Abs(s[j]);
      MagnitudeFaithful(s[i], s[j]);
      assert m[i] == m[j];
    }
  }

  /** `duplicates`: sort the magnitudes and look for two equal neighbours. The
      source reads `genes.size()-1` as an unsigned count, so an empty genome is
      outside its contract. */
  function Duplicates(g: Genome): (d: bool)
    requires |g.elements| >= 1
    ensures d <==> HasDuplicateGenes(g.elements)
  {
    var m := Magnitudes(g.elements);
    var sorted := Sort(m);
    SortedAdjacent(sorted);
    DistinctPermutation(sorted, m);
    DuplicatesOfMagnitudes(g.elements);
    AdjacentEqual(sorted)
  }

  /** Reference definition: the two genomes hold the same multiset of genes,
      signs ignored. */
  predicate SameContent(a: seq<Gene>, b: seq<Gene>) {
    multiset(Magnitudes(a)) == multiset(Magnitudes(b))
  }

  /** `unequal_content`: sort both lists of magnitudes; different sizes or a
      difference at some position mean unequal content. */
  function UnequalContent(pi: Genome, id: Genome): (u: bool)
    ensures u <==> !SameContent(pi.elements, id.elements)
    ensures |pi.elements| != |id.elements| ==> u
  {
    var ma, mb := Magnitudes(pi.elements), Magnitudes(id.elements);
    var a, b := Sort(ma), Sort(mb);
    if |a| != |b| then
      assert |multiset(ma)| != |multiset(mb)|;
      true
    else
      SortsEqual(ma, mb);
      exists i :: 0 <= i < |a| && a[i] != b[i]
  }

  lemma SortsEqual(ma: seq<int>, mb: seq<int>)
    ensures Sort(ma) == Sort(mb) <==> multiset(ma) == multiset(mb)
  {
    if multiset(ma) == multiset(mb) {
      SortedUnique(Sort(ma), Sort(mb));
    }
  }

  /** Content comparison is symmetric and every genome has its own content. */
  lemma UnequalContentSymmetric(a: Genome, b: Genome)
    ensures UnequalContent(a, b) == UnequalContent(b, a)
    ensures !UnequalContent(a, a)
  {
  }

  /* ---------------- Adjacency matching ---------------- */

  type Adj = (int, int)

  /** An adjacency (p1,p2) is found as (i1,i2) when it is the same pair or its
      reverse complement (-p2,-p1). */
  predicate Matches(p: Adj, q: Adj) {
    (p.0 == q.0 && p.1 == q.1) || (-p.0 == q.1 && -p.1 == q.0)
  }

  function RevComp(p: Adj): Adj {
    (-p.1, -p.0)
  }

  /** Matching is symmetric, and an adjacency matches its reverse complement. */
  lemma MatchesSymmetric(p: Adj, q: Adj)
    ensures Matches(p, q) <==> Matches(q, p)
    ensures Matches(p, RevComp(p)) && Matches(p, p)
  {
  }

  /** The adjacencies (e[k], e[k+1]) of a chromosome read as linear. */
  function LinearAdjs(e: seq<Gene>): (r: seq<Adj>)
    ensures |r| == if |e| == 0 then 0 else |e| - 1
    ensures forall k :: 0 <= k < |r| ==> r[k] == (e[k] as int, e[k + 1] as int)
  {
    if |e| <= 1 then [] else [(e[0] as int, e[1] as int)] + LinearAdjs(e[1..])
  }

  /** The wrap-around adjacency of a circular chromosome. */
  function WrapAdj(e: seq<Gene>): Adj
    requires |e| >= 1
  {
    (e[|e| - 1] as int, e[0] as int)
  }

  predicate MatchesSome(p: Adj, ids: seq<Adj>) {
    exists l :: 0 <= l < |ids| && Matches(p, ids[l])
  }

  /** How many adjacencies of ps match some entry of ids; a pair matching
      several entries counts once (the `find` flag). */
  function CountShared(ps: seq<Adj>, ids: seq<Adj>): (n: nat)
    ensures n <= |ps|
  {
    if |ps| == 0 then 0
    else (if MatchesSome(ps[0], ids) then 1 else 0) + CountShared(ps[1..], ids)
  }

  /** The adjacencies of ps that match some entry of ids, in ps order. */
  function FilterShared(ps: seq<Adj>, ids: seq<Adj>): (r: seq<Adj>)
    ensures |r| == CountShared(ps, ids)
    ensures forall q :: q in r ==> q in ps && MatchesSome(q, ids)
  {
    if |ps| == 0 then []
    else (if MatchesSome(ps[0], ids) then [ps[0]] else []) + FilterShared(ps[1..], ids)
  }

  /** A list of gene pairs written out as (p1, p2, p1', p2', ...). */
  function Flatten(pairs: seq<Adj>): (r: seq<int>)
    ensures |r| == 2 * |pairs|
    ensures forall k :: 0 <= k < |pairs| ==> r[2 * k] == pairs[k].0 && r[2 * k + 1] == pairs[k].1
  {
    if |pairs| == 0 then [] else [pairs[0].0, pairs[0].1] + Flatten(pairs[1..])
  }

  /** What the wrap-around adjacency of pi is compared against: id's linear
      adjacencies, plus id's own wrap-around when id is circular. */
  function WrapTargets(id: Genome): seq<Adj>
    requires id.circular ==> |id.elements| >= 1
  {
    LinearAdjs(id.elements) + (if id.circular then [WrapAdj(id.elements)] else [])
  }

  predicate WellShaped(pi: Genome, id: Genome) {
    && (pi.circular ==> |pi.elements| >= 1)
    && (pi.circular && id.circular ==> |id.elements| >= 1)
  }

  predicate WrapShared(pi: Genome, id: Genome)
    requires WellShaped(pi, id)
  {
    pi.circular && MatchesSome(WrapAdj(pi.elements), WrapTargets(id))
  }

  /** Number of adjacencies of pi found in id. Each linear adjacency of pi is
      compared against the linear adjacencies of id only; the wrap-around of id
      is consulted only for the wrap-around of pi. */
  function Matched(pi: Genome, id: Genome): nat
    requires WellShaped(pi, id)
  {
    CountShared(LinearAdjs(pi.elements), LinearAdjs(id.elements))
      + (if WrapShared(pi, id) then 1 else 0)
  }

  /** `bA`: the adjacencies of pi, its wrap-around included when circular. */
  function CountA(pi: Genome): nat {
    |LinearAdjs(pi.elements)| + (if pi.circular then 1 else 0)
  }

  /** `bB`: reset to id's linear adjacency count inside the loop over pi's
      adjacencies, so it stays 0 when pi has fewer than two genes, and bumped
      only on the circular-pi path whatever id's shape. */
  function CountB(pi: Genome, id: Genome): nat {
    (if |pi.elements| >= 2 then |LinearAdjs(id.elements)| else 0)
      + (if pi.circular then 1 else 0)
  }

  /** `_breakpoints`: the larger adjacency count less the number of shared
      adjacencies; never negative, since each adjacency of pi is counted once. */
  function Breakpoints(pi: Genome, id: Genome): (b: int)
    requires WellShaped(pi, id)
    ensures 0 <= b
    ensures b <= if CountA(pi) > CountB(pi, id) then CountA(pi) else CountB(pi, id)
    ensures b == 0 ==> Matched(pi, id) == CountA(pi) || Matched(pi, id) == CountB(pi, id)
  {
    var m := Matched(pi, id);
    var bA, bB := CountA(pi), CountB(pi, id);
    if bA > bB then bA - m else bB - m
  }

  /** A genome has no breakpoints against itself, linear or circular. */
  lemma BreakpointsSelf(a: Genome)
    requires a.circular ==> |a.elements| >= 1
    ensures Breakpoints(a, a) == 0
  {
    var ls := LinearAdjs(a.elements);
    AllShared(ls, ls);
    if a.circular {
      var w := WrapAdj(a.elements);
      var ts := WrapTargets(a);
      assert ts[|ts| - 1] == w;
      assert Matches(w, ts[|ts| - 1]);
    }
  }

  lemma {:induction false} AllShared(ps: seq<Adj>, ids: seq<Adj>)
    requires forall k :: 0 <= k < |ps| ==> ps[k] in ids
    ensures CountShared(ps, ids) == |ps|
  {
    if |ps| > 0 {
      var l :| 0 <= l < |ids| && ids[l] == ps[0];
      assert Matches(ps[0], ids[l]);
      AllShared(ps[1..], ids);
    }
  }

  /** When pi is linear, whether id is circular makes no difference. */
  lemma LinearIgnoresIdWrap(pi: Genome, id: Genome)
    requires !pi.circular
    ensures Breakpoints(pi, id) == Breakpoints(pi, id.(circular := false))
  {
  }

  /** The adjacencies of pi, in pi order, that the source finds in id. */
  function SharedPairs(pi: Genome, id: Genome): (r: seq<Adj>)
    requires WellShaped(pi, id)
    ensures |r| == Matched(pi, id)
    ensures forall q :: q in r ==> IsAdjacencyOf(q, pi)
  {
    FilterShared(LinearAdjs(pi.elements), LinearAdjs(id.elements))
      + (if WrapShared(pi, id) then [WrapAdj(pi.elements)] else [])
  }

  /** `_adjacencies`: the shared adjacencies of pi, in pi order, flattened to a
      list of genes; one pair per match counted by the breakpoint computation.
      Pair j of the result is pi's adjacency at the j-th position where the
      source's comparison finds it in id, so every shared adjacency appears,
      once per occurrence in pi, and nothing else. */
  function Adjacencies(pi: Genome, id: Genome): (r: seq<int>)
    requires WellShaped(pi, id)
    ensures |r| == 2 * Matched(pi, id)
    ensures forall k :: 0 <= k < |r| && k % 2 == 0 ==> IsAdjacencyOf((r[k], r[k + 1]), pi)
    ensures exists idx ::
              && SharedPositions(pi, id, idx) && |r| == 2 * |idx|
              && forall j :: 0 <= j < |idx| ==> r[2 * j] == AllAdjs(pi)[idx[j]].0 && r[2 * j + 1] == AllAdjs(pi)[idx[j]].1
  {
    FlattenAtPositions(pi, id);
    FlattenAdjacent(pi, id);
    Flatten(SharedPairs(pi, id))
  }

  /** Each flattened shared pair is an adjacency of pi. */
  lemma FlattenAdjacent(pi: Genome, id: Genome)
    requires WellShaped(pi, id)
    ensures forall k :: 0 <= k < |Flatten(SharedPairs(pi, id))| && k % 2 == 0 ==>
      IsAdjacencyOf((Flatten(SharedPairs(pi, id))[k], Flatten(SharedPairs(pi, id))[k + 1]), pi)
  {
    var pairs := SharedPairs(pi, id);
    var r := Flatten(pairs);
    assert forall k :: 0 <= k < |r| && k % 2 == 0 ==> (r[k], r[k + 1]) == pairs[k / 2];
  }

  /** The flattened shared pairs are pi's adjacencies at the shared positions. */
  lemma FlattenAtPositions(pi: Genome, id: Genome)
    requires WellShaped(pi, id)
    ensures exists idx ::
              && SharedPositions(pi, id, idx) && |Flatten(SharedPairs(pi, id))| == 2 * |idx|
              && forall j :: 0 <= j < |idx| ==>
                   Flatten(SharedPairs(pi, id))[2 * j] == AllAdjs(pi)[idx[j]].0 &&
                   Flatten(SharedPairs(pi, id))[2 * j + 1] == AllAdjs(pi)[idx[j]].1
  {
    var pairs := SharedPairs(pi, id);
    PairsAtPositions(pi, id);
    var idx :| SharedPositions(pi, id, idx) && |pairs| == |idx| &&
      forall j :: 0 <= j < |idx| ==> pairs[j] == AllAdjs(pi)[idx[j]];
    var r := Flatten(pairs);
    assert forall j :: 0 <= j < |idx| ==> r[2 * j] == AllAdjs(pi)[idx[j]].0 && r[2 * j + 1] == AllAdjs(pi)[idx[j]].1;
  }

  /** Every adjacency of pi in order: the linear ones, then the wrap-around
      when pi is circular. */
  function AllAdjs(pi: Genome): (r: seq<Adj>)
    requires pi.circular ==> |pi.elements| >= 1
    ensures |r| == CountA(pi)
  {
    LinearAdjs(pi.elements) + (if pi.circular then [WrapAdj(pi.elements)] else [])
  }

  /** The source finds pi's k-th adjacency in id: a linear adjacency among
      id's linear adjacencies, the wrap-around among WrapTargets(id). */
  predicate SharedAt(pi: Genome, id: Genome, k: int)
    requires WellShaped(pi, id) && 0 <= k < |AllAdjs(pi)|
  {
    if k < |LinearAdjs(pi.elements)| then MatchesSome(AllAdjs(pi)[k], LinearAdjs(id.elements))
    else WrapShared(pi, id)
  }

  /** idx lists, in increasing order, exactly the positions of pi's
      adjacencies that the source finds in id. */
  ghost predicate SharedPositions(pi: Genome, id: Genome, idx: seq<int>)
    requires WellShaped(pi, id)
  {
    && (forall j :: 0 <= j < |idx| ==> 0 <= idx[j] < |AllAdjs(pi)|)
    && (forall a, b :: 0 <= a < b < |idx| ==> idx[a] < idx[b])
    && forall k :: 0 <= k < |AllAdjs(pi)| ==> (SharedAt(pi, id, k) <==> k in idx)
  }

  /** The pairs SharedPairs lists are pi's adjacencies at the shared
      positions. */
  lemma PairsAtPositions(pi: Genome, id: Genome)
    requires WellShaped(pi, id)
    ensures exists idx ::
              && SharedPositions(pi, id, idx) && |SharedPairs(pi, id)| == |idx|
              && forall j :: 0 <= j < |idx| ==> SharedPairs(pi, id)[j] == AllAdjs(pi)[idx[j]]
  {
    var ls := LinearAdjs(pi.elements);
    var all := AllAdjs(pi);
    var lidx := FilterPositions(ls, LinearAdjs(id.elements));
    var idx := lidx + (if WrapShared(pi, id) then [|ls|] else []);
    var pairs := SharedPairs(pi, id);
    forall k | 0 <= k < |all|
      ensures SharedAt(pi, id, k) <==> k in idx
    {
      if k < |ls| {
        assert all[k] == ls[k];
      }
    }
    forall j | 0 <= j < |idx|
      ensures pairs[j] == all[idx[j]]
    {
      if j < |lidx| {
        assert pairs[j] == FilterShared(ls, LinearAdjs(id.elements))[j];
      }
    }
    assert SharedPositions(pi, id, idx);
  }

  /** The positions, counted from base, of the entries of ps that match some
      entry of ids. */
  function Positions(ps: seq<Adj>, ids: seq<Adj>, base: int): seq<int>
  {
    if |ps| == 0 then []
    else (if MatchesSome(ps[0], ids) then [base] else []) + Positions(ps[1..], ids, base + 1)
  }

  /** The positions lie in range and increase. */
  lemma {:induction false} PositionsOrdered(ps: seq<Adj>, ids: seq<Adj>, base: int)
    ensures forall j :: 0 <= j < |Positions(ps, ids, base)| ==>
      base <= Positions(ps, ids, base)[j] < base + |ps|
    ensures forall a, b :: 0 <= a < b < |Positions(ps, ids, base)| ==>
      Positions(ps, ids, base)[a] < Positions(ps, ids, base)[b]
  {
    if |ps| > 0 {
      PositionsOrdered(ps[1..], ids, base + 1);
    }
  }

  /** A position is listed exactly when its entry matches. */
  lemma {:induction false} PositionsListed(ps: seq<Adj>, ids: seq<Adj>, base: int)
    ensures forall k :: 0 <= k < |ps| ==> (MatchesSome(ps[k], ids) <==> base + k in Positions(ps, ids, base))
  {
    if |ps| > 0 {
      PositionsListed(ps[1..], ids, base + 1);
      PositionsOrdered(ps[1..], ids, base + 1);
      forall k | 0 < k < |ps|
        ensures MatchesSome(ps[k], ids) <==> base + k in Positions(ps, ids, base)
      {
        assert ps[k] == ps[1..][k - 1];
      }
    }
  }

  /** FilterShared keeps the entries at the listed positions. */
  lemma {:induction false} PositionsFiltered(ps: seq<Adj>, ids: seq<Adj>, base: int)
    ensures |Positions(ps, ids, base)| == |FilterShared(ps, ids)|
    ensures forall j :: 0 <= j < |FilterShared(ps, ids)| ==>
      0 <= Positions(ps, ids, base)[j] - base < |ps| &&
      FilterShared(ps, ids)[j] == ps[Positions(ps, ids, base)[j] - base]
  {
    if |ps| > 0 {
      PositionsFiltered(ps[1..], ids, base + 1);
      PositionsOrdered(ps, ids, base);
    }
  }

  /** The positions of the entries of ps that FilterShared keeps. */
  lemma FilterPositions(ps: seq<Adj>, ids: seq<Adj>) returns (idx: seq<int>)
    ensures forall j :: 0 <= j < |idx| ==> 0 <= idx[j] < |ps|
    ensures forall a, b :: 0 <= a < b < |idx| ==> idx[a] < idx[b]
    ensures forall k :: 0 <= k < |ps| ==> (MatchesSome(ps[k], ids) <==> k in idx)
    ensures |idx| == |FilterShared(ps, ids)|
    ensures forall j :: 0 <= j < |idx| ==> FilterShared(ps, ids)[j] == ps[idx[j]]
  {
    idx := Positions(ps, ids, 0);
    PositionsOrdered(ps, ids, 0);
    PositionsListed(ps, ids, 0);
    PositionsFiltered(ps, ids, 0);
  }

  predicate IsAdjacencyOf(p: Adj, g: Genome) {
    p in LinearAdjs(g.elements) || (g.circular && |g.elements| >= 1 && p == WrapAdj(g.elements))
  }

  /** Breakpoints and shared adjacencies partition the larger adjacency count. */
  lemma AdjacenciesMatchBreakpoints(pi: Genome, id: Genome)
    requires WellShaped(pi, id)
    ensures Breakpoints(pi, id) + |Adjacencies(pi, id)| / 2
            == if CountA(pi) > CountB(pi, id) then CountA(pi) else CountB(pi, id)
  {
  }

  /* ---------------- Dispatchers ---------------- */

  /** `_DCJ`: validation, then the not-implemented sentinel. */
  function DCJ(pi: Genome, id: Genome): (r: int)
    requires |pi.elements| >= 1 && |id.elements| >= 1
    ensures r == ERR_DUPLICATES <==> HasDuplicateGenes(pi.elements) || HasDuplicateGenes(id.elements)
    ensures r == ERR_CONTENT <==>
      !HasDuplicateGenes(pi.elements) && !HasDuplicateGenes(id.elements)
      && !SameContent(pi.elements, id.elements)
    ensures r == ERR_NOTIMPL <==>
      !HasDuplicateGenes(pi.elements) && !HasDuplicateGenes(id.elements)
      && SameContent(pi.elements, id.elements)
  {
    if Duplicates(pi) || Duplicates(id) then ERR_DUPLICATES
    else if UnequalContent(pi, id) then ERR_CONTENT
    else ERR_NOTIMPL
  }

  /** Both genomes pass validation: no repeated gene and the same genes. */
  predicate Validated(pi: Genome, id: Genome) {
    && !HasDuplicateGenes(pi.elements) && !HasDuplicateGenes(id.elements)
    && SameContent(pi.elements, id.elements)
  }

  /** The genes are numbered 1..N, signs aside. The reversal-distance arrays
      are sized 2N + 2 and indexed by gene number, so `_inversions` needs
      this of any genome that passes validation. */
  predicate Numbered(s: seq<Gene>) {
    forall i :: 0 <= i < |s| ==> 1 <= Abs(s[i]) <= |s|
  }

  /** Two validated genomes numbered 1..N are signed permutations of the
      same N genes. */
  lemma ValidatedPermutations(pi: Genome, id: Genome)
    requires Validated(pi, id) && Numbered(pi.elements)
    ensures Extended.SignedPermutation(pi.elements) && Extended.SignedPermutation(id.elements)
    ensures |pi.elements| == |id.elements|
  {
    var a, b := pi.elements, id.elements;
    var ma, mb := Magnitudes(a), Magnitudes(b);
    assert |ma| == |multiset(ma)| == |multiset(mb)| == |mb|;
    forall j | 0 <= j < |b|
      ensures 1 <= Abs(b[j]) <= |b|
    {
      assert mb[j] in multiset(mb);
      var i :| 0 <= i < |ma| && ma[i] == mb[j];
      MagnitudeFaithful(a[i], b[j]);
    }
  }

  /** The reversal distance the single-chromosome branch of `_inversions`
      reports for two validated genomes. A circular pi is measured as a
      circle from id's first gene, plus one, minus one more when id is
      circular too; a circular id alone is measured from pi's first gene,
      plus one; two linear genomes are compared as read. */
  ghost predicate ReportsDistance(pi: Genome, id: Genome, r: int)
    requires Extended.SignedPermutation(pi.elements) && Extended.SignedPermutation(id.elements)
    requires |pi.elements| == |id.elements| >= 1
  {
    var a, b := pi.elements, id.elements;
    Extended.OffsetFound(a, b);
    Extended.OffsetFound(b, a);
    if pi.circular then
      InvDist.IsDistance(b, a, Extended.CalculateOffset(b, a), r - 1 + (if id.circular then 1 else 0))
    else if id.circular then
      InvDist.IsDistance(a, b, Extended.CalculateOffset(a, b), r - 1)
    else
      InvDist.IsDistance(a, b, 0, r)
  }

  /** The single-chromosome branch of `_inversions`. */
  method SingleInversions(pi: Genome, id: Genome) returns (r: int)
    requires Extended.SignedPermutation(pi.elements) && Extended.SignedPermutation(id.elements)
    requires |pi.elements| == |id.elements| >= 1
    ensures ReportsDistance(pi, id, r) && r >= 0
  {
    var a, b := pi.elements, id.elements;
    Extended.OffsetFound(a, b);
    Extended.OffsetFound(b, a);
    if pi.circular {
      var d := InvDist.InvdistCircular(b, a);
      r := d + 1 - (if id.circular then 1 else 0);
    } else if id.circular {
      var d := InvDist.InvdistCircular(a, b);
      r := d + 1;
    } else {
      r := InvDist.InvdistNoncircular(a, b, 0);
    }
  }

  /** `_inversions`: validation first, with duplicates reported before a
      content mismatch, then the reversal distance of the one chromosome of
      each genome. */
  method Inversions(pi: Genome, id: Genome) returns (r: int)
    requires |pi.elements| >= 1 && |id.elements| >= 1
    requires Validated(pi, id) ==> Numbered(pi.elements)
    ensures r == ERR_DUPLICATES <==> HasDuplicateGenes(pi.elements) || HasDuplicateGenes(id.elements)
    ensures r == ERR_CONTENT <==>
      !HasDuplicateGenes(pi.elements) && !HasDuplicateGenes(id.elements)
      && !SameContent(pi.elements, id.elements)
    ensures Validated(pi, id) ==>
      && Extended.SignedPermutation(pi.elements) && Extended.SignedPermutation(id.elements)
      && |pi.elements| == |id.elements|
      && ReportsDistance(pi, id, r) && r >= 0
  {
    if Duplicates(pi) || Duplicates(id) {
      return ERR_DUPLICATES;
    }
    if UnequalContent(pi, id) {
      return ERR_CONTENT;
    }
    ValidatedPermutations(pi, id);
    r := SingleInversions(pi, id);
  }
}
