# Reversal distance of signed gene orders (libd), modelled in Dafny

This project models the C++ distance library `libd` of Bio::GeneOrder. The library compares two
genomes, each a signed order of genes. It has three parts:

* **Validation**:
  * `duplicates` asks whether two genes of a genome share an absolute value;
  * `unequal_content` asks whether the two genomes differ as multisets of absolute values.
* **Direct counts**:
  * `_breakpoints` counts adjacencies of one genome missing from the other;
  * `_adjacencies` lists the shared adjacencies;
  * `_DCJ` validates and then reports "not implemented".
* **Reversal distance** (`_inversions`):
  * after validation, the Hannenhalli–Pevzner value d = b − c + h + f is computed over the
    extended permutation (`invdist_noncircular`, `invdist_circular`);
  * b is the number of breakpoints and c the number of cycles of the breakpoint graph;
  * h is the number of hurdles among the unoriented components of the interleaving graph, whose
    nodes are the cycles and whose edges join two cycles with crossing grey edges;
  * f is one when those hurdles form a fortress.

Every phase is a Dafny function or method over immutable sequences. Each has a contract relating
its result to an independent reference definition:

* the shared adjacencies as the positions of pi whose adjacency the source's comparison finds in
  id (`Distances.SharedPositions`);
* the grey edge of a vertex, read off the inverse of the permutation (`Graph.Grey`);
* cycles as orbits of the grey-then-black walk (`Cycles.OnCycle`);
* a breakpoint as a black pair whose values are not consecutive (`GraphBreakpoints.Breaks`);
* components as the classes of the transitive closure of crossing grey edges
  (`Interleaving.InterleavingClasses`), numbered in the order of their last vertices
  (`Interleaving.Numbered`);
* blocks as the maximal runs of unoriented-component indices (`Hurdles.Collapse` of `Hurdles.Marks`);
* hurdles, superhurdles and the fortress over those blocks (`Hurdles.IsHurdle`,
  `Hurdles.IsSuperhurdle`, `Hurdles.IsFortress`);
* the distance formula over an analysis of the extended permutation (`InvDist.IsDistance`); the
  cycle labelling and the component numbering of an analysis are unique, so this fixes one value.

Modules, one per file:

* `Structs` (structs.dfy): error codes, hurdle flags, records, workspace.
* `Counting` (counting.dfy): pigeonhole facts.
* `Sorting` (sorting.dfy): `std::sort` as an insertion sort.
* `Distances` (distances.dfy): validation, breakpoints, adjacencies, `_DCJ` and `_inversions`.
* `Extended` (extended.dfy): `calculate_offset` and the construction of the extended permutation.
* `Graph` (graph.dfy): the reference grey edges.
* `GraphBreakpoints` (breakpoints.dfy): `num_breakpoints`.
* `Cycles` (cycles.dfy): `num_cycles`.
* `Interleaving` (interleaving.dfy): the reference interleaving graph and component numbering.
* `Components` (components.dfy): `connected_component`.
* `Hurdles` (hurdles.dfy): `num_hurdles_and_fortress`.
* `InvDist` (invdist.dfy): the two distance drivers.

Some behaviour of the source is modelled as written:

* The chromosome count `sizeof(pi)/sizeof(Genome *)` is always 1. So every function sees one
  chromosome per genome, and only the single-chromosome branch of `_inversions` can run.
* That branch has three cases:
  * a circular `pi` is measured with `invdist_circular(id, pi) + 1 - id.circular`;
  * otherwise, a circular `id` is measured with `invdist_circular(pi, id) + 1`;
  * otherwise the genomes are measured with `invdist_noncircular(pi, id, 0)`.
* The scratch arrays of `distmem_t` are never initialised by the source:
  * the stale contents of `cc`, which `connected_component` uses as its stack of ranges, are a
    parameter `cc0`, and the proofs show none of it survives;
  * component records start as `NoComponent`, and every field read is written first.
* Cycle labels the source leaves unwritten (self loops) are -1 in the model.

## Model

| member | source | states |
|---|---|---|
| Structs.CodeInjective | ext/libd/structs.h:4-9 | the five failure conditions have distinct sentinel codes, all negative, so none can be mistaken for a distance |
| Structs.SetFlag | ext/libd/structs.h:11-13 | HURDLE, GREATHURDLE and SUPERHURDLE are distinct bits: setting one turns it on and leaves the other two as they were |
| Structs.NewWorkspace | ext/libd/structs.h:39-64 | the workspace of an n-vertex computation has n entries in every array, component records included |
| Sorting.Sort | ext/libd/distances.cpp:261 | the sorted sequence is ordered and is a permutation of its input (same multiset, same length) |
| Sorting.SortedUnique | ext/libd/distances.cpp:304-316 | two sorted sequences with the same multiset are equal, so comparing sorted lists compares contents |
| Sorting.SortedAdjacent | ext/libd/distances.cpp:261-267 | in a sorted sequence a value repeats if and only if it repeats at neighbouring positions |
| Sorting.DistinctMultiplicity | ext/libd/distances.cpp:248-267 | a sequence has no repeats if and only if no value occurs more than once in its multiset |
| Distances.DuplicatesOfMagnitudes | ext/libd/distances.cpp:254-258 | the stored magnitudes repeat exactly when two genes share an absolute value; the 16-bit store merges nothing |
| Distances.Duplicates | ext/libd/distances.cpp:242-269 | `duplicates` is true if and only if two genes of the genome have the same absolute value |
| Distances.UnequalContent | ext/libd/distances.cpp:271-318 | `unequal_content` is true if and only if the multisets of absolute values differ, and always when the lengths differ |
| Distances.SortsEqual | ext/libd/distances.cpp:304-316 | the sorted magnitude lists agree if and only if the magnitude multisets agree |
| Distances.UnequalContentSymmetric | ext/libd/distances.cpp:271-318 | content comparison is symmetric and a genome never differs from itself |
| Distances.MatchesSymmetric | ext/libd/distances.cpp:35 | the adjacency test is symmetric and accepts an adjacency read forwards or reversed with signs flipped |
| Distances.Breakpoints | ext/libd/distances.cpp:86-173 | the breakpoint count lies between 0 and the larger of the two adjacency counts; zero means every counted adjacency is shared |
| Distances.BreakpointsSelf | ext/libd/distances.cpp:86-173 | a genome, linear or circular, has no breakpoints against itself |
| Distances.LinearIgnoresIdWrap | ext/libd/distances.cpp:130-163 | for a linear pi, whether id is circular changes nothing: id's wrap-around is read only for pi's wrap-around |
| Distances.Adjacencies | ext/libd/distances.cpp:4-84 | the list holds two genes per shared adjacency, one pair per match, each pair an adjacency of pi; pair j is pi's adjacency at the j-th position, in pi order, whose adjacency is found in id (a linear one among id's linear adjacencies, the wrap-around among id's adjacencies including its wrap-around), so every shared adjacency appears and nothing else |
| Distances.FilterPositions | ext/libd/distances.cpp:24-43 | the linear scan keeps, in order, exactly the entries of pi found among id's adjacencies |
| Distances.AdjacenciesMatchBreakpoints | ext/libd/distances.cpp:4-173 | breakpoints plus shared adjacencies make up the larger adjacency count |
| Distances.DCJ | ext/libd/distances.cpp:221-240 | duplicates give ERR_DUPLICATES, otherwise unequal content gives ERR_CONTENT, otherwise ERR_NOTIMPL, each if and only if |
| Distances.ValidatedPermutations | ext/libd/distances.cpp:183-187 | two genomes that pass validation, numbered 1..N, are signed permutations of the same length |
| Distances.SingleInversions | ext/libd/distances.cpp:189-202 | the single-chromosome branch reports the reversal distance of the three circular/linear cases, never negative |
| Distances.Inversions | ext/libd/distances.cpp:175-218 | `_inversions` reports ERR_DUPLICATES exactly for repeated genes, ERR_CONTENT exactly for valid genomes of different content, and otherwise the branch's reversal distance |
| Extended.CalculateOffset | ext/libd/invdist.cpp:3-19 | the offset is the first position of g1's first gene in g2, plus N when it occurs there with the opposite sign; ERR_CONTENT exactly when it does not occur |
| Extended.OffsetFound | ext/libd/invdist.cpp:3-19 | for two signed permutations of the same genes the offset is always found |
| Extended.ScatterRanks | ext/libd/invdist.cpp:453-467 | the first loop writes ranks 2j+1 and 2j+2 at the two markers of g1's j-th gene, in the order its sign gives |
| Extended.GatherMarkers | ext/libd/invdist.cpp:469-488 | the second loop lists the two markers of each gene of g2 read from the offset, backward with flipped signs past N |
| Extended.Compose | ext/libd/invdist.cpp:489-494 | the composed permutation is perm1 after perm2, bracketed by 0 and n-1 |
| Extended.BuildExtended | ext/libd/invdist.cpp:444-494 | the three loops build the extended permutation: a permutation of 0..2N+1 whose black pairs hold paired values |
| Extended.ExtendedWellFormed | ext/libd/invdist.cpp:453-494 | the extended permutation of two aligned signed permutations is a permutation fixing 0 and n-1 with paired slots |
| Extended.AlignedIsIdentity | ext/libd/invdist.cpp:453-494 | when g2 read from the offset spells g1, the extended permutation is the identity |
| GraphBreakpoints.NumBreakpoints | ext/libd/invdist.cpp:21-42 | `num_breakpoints` counts the black pairs whose values are not consecutive, at most one per pair |
| GraphBreakpoints.BreakpointIsGrey | ext/libd/invdist.cpp:21-42 | a pair of the extended permutation is a breakpoint if and only if its first vertex has a grey edge |
| GraphBreakpoints.IdentityNoBreaks | ext/libd/invdist.cpp:29-39 | the identity has no breakpoints |
| Graph.GreySymmetric | ext/libd/invdist.cpp:66-102 | grey edges pair distinct vertices symmetrically |
| Graph.GreyLoops | ext/libd/invdist.cpp:66-102 | a vertex has a self loop exactly when its black neighbour has one |
| Cycles.InversePositions | ext/libd/invdist.cpp:67-71 | invperm is the inverse of the permutation |
| Cycles.GreyEdges | ext/libd/invdist.cpp:66-102 | the edge loop with its `ind < perm[i+1]` case split gives at every vertex the reference grey edge: the position holding the black partner of its value, or -1 when that position is its own black neighbour |
| Cycles.Trace | ext/libd/invdist.cpp:109-126 | the do-while loop returns to its start within n steps and labels with the start exactly the vertices it meets |
| Cycles.NumCycles | ext/libd/invdist.cpp:44-132 | `num_cycles` labels every vertex that is not a self loop with a vertex of its own cycle, at or below it, that labels itself; self loops keep -1; c counts the vertices that label themselves |
| Cycles.CycleIsLabelClass | ext/libd/invdist.cpp:107-129 | in the final labelling a vertex is on the cycle of root r if and only if it is labelled r |
| Cycles.RootIsLeast | ext/libd/invdist.cpp:107-129 | each cycle's label is its smallest vertex |
| Cycles.IdentityLoops | ext/libd/invdist.cpp:66-102 | in the identity every vertex is a self loop |
| Components.CycleEnds | ext/libd/invdist.cpp:157-162 | each cycle root holds the last vertex of its cycle |
| Components.Merge | ext/libd/invdist.cpp:175-184 | the union loop pops exactly the stack entries whose roots lie above parent[i], hangs them below parent[i] and folds the largest of their ranges into right |
| Components.LabellingUnique | ext/libd/invdist.cpp:107-129 | the cycle labelling of a grey graph is unique: any two labellings by cycle roots agree |
| Components.OverlapInterleave | ext/libd/invdist.cpp:175-184 | when a vertex's cycle root lies below a stacked root whose cycle reaches past the vertex, the two cycles have crossing grey edges |
| Components.InterleaveOverlap | ext/libd/invdist.cpp:164-195 | two distinct cycles with crossing grey edges always show such an overlap at some vertex of one of them |
| Components.ScanExact | ext/libd/invdist.cpp:164-195 | at the end of the scan two vertices share a tree exactly when their cycles are connected in the interleaving graph, and each recorded component closes at its last vertex, in increasing order |
| Components.ScanComponents | ext/libd/invdist.cpp:164-195 | after the stack scan every non-loop vertex lies in the tree of a recorded component, no component is recorded twice, every vertex that is not its cycle's root keeps that root as its parent; two vertices share a tree exactly when their cycles are connected in the interleaving graph, and components are recorded in the order of their last vertices |
| Components.BuildLists | ext/libd/invdist.cpp:196-210 | the next links thread each tree of the forest into one list headed by its root, and self loops get cc -1 |
| Components.WalkList | ext/libd/invdist.cpp:215-220 | the inner walk writes k at exactly the vertices of the list and nowhere else |
| Components.LabelComponents | ext/libd/invdist.cpp:212-221 | every vertex of the tree of the k-th recorded component gets cc k |
| Components.ConnectedComponent | ext/libd/invdist.cpp:134-224 | cc is -1 exactly at self loops; every other vertex gets a component index in range, shared with its whole cycle, and each component's root carries its own index; cc is the reference partition into components of the interleaving graph, numbered by last vertex |
| Interleaving.EndsCounted | ext/libd/invdist.cpp:187-192 | recording components as they close, in increasing order of last vertex, gives the k-th recorded component index k and counts all components |
| Interleaving.NumberingUnique | ext/libd/invdist.cpp:187-221 | two indexings that both partition the vertices into interleaving components numbered by last vertex are equal |
| Hurdles.Orientation | ext/libd/invdist.cpp:266-289 | a vertex is marked oriented if and only if it has a grey edge of even span |
| Hurdles.OrientedSymmetric | ext/libd/invdist.cpp:275-287 | both ends of a grey edge get the same orientation |
| Hurdles.ComponentOrientation | ext/libd/invdist.cpp:301-310 | a component is oriented if and only if one of its vertices is oriented |
| Hurdles.CountUnoriented | ext/libd/invdist.cpp:313-327 | the count of unoriented components is zero exactly when all are oriented |
| Hurdles.BlockScan | ext/libd/invdist.cpp:348-375 | every record's block count, left and right neighbour agree with the reference sequence of blocks, and first/last are its first and last block |
| Hurdles.OneBlockContiguous | ext/libd/invdist.cpp:337-346 | a component forms exactly one block if and only if it occurs and its vertex occurrences are contiguous |
| Hurdles.MarkHurdles | ext/libd/invdist.cpp:378-392 | the marking loop and the wrap-around check give each record its hurdle bits, and h counts the records marked |
| Hurdles.HurdlePhase | ext/libd/invdist.cpp:348-392 | after the block scan and the marking, the hurdle flags are the reference hurdles and the superhurdle test is the reference one |
| Hurdles.Superhurdles | ext/libd/invdist.cpp:394-429 | the superhurdle loop stops with no fortress at the first hurdle that fails the test; otherwise there is a fortress exactly when the number of hurdles is odd |
| Hurdles.HurdlesOf | ext/libd/invdist.cpp:313-432 | h is the number of reference hurdles and f is one exactly for a fortress: at least three hurdles, an odd number, all superhurdles |
| Hurdles.ComponentHurdles | ext/libd/invdist.cpp:248-432 | given the component labels, one record per component, and h and f are the reference hurdle count and fortress test over them |
| Hurdles.NumHurdlesAndFortress | ext/libd/invdist.cpp:226-432 | `num_hurdles_and_fortress` labels the interleaving components, numbered by last vertex, and reports h and f as the reference hurdle count and fortress test over them |
| InvDist.DistanceUnique | ext/libd/invdist.cpp:496-500 | the formula b - c + h + f takes one value over all analyses of an extended permutation |
| InvDist.InvdistNoncircular | ext/libd/invdist.cpp:434-504 | the result is the Hannenhalli–Pevzner value b - c + h + f of the extended permutation, the only value any analysis gives, never negative, and zero when g2 read from the offset spells g1 |
| InvDist.InvdistCircular | ext/libd/invdist.cpp:506-515 | the circular distance is found from g1's first gene and inherits those three properties |
| InvDist.Analyse | ext/libd/invdist.cpp:496-500 | the three counts combine into the formula's value over the analysis: cycle labels, interleaving components numbered by last vertex; it is never negative |
| InvDist.CyclesBelowBreaks | ext/libd/invdist.cpp:496-500 | there are never more cycles than breakpoints: a cycle starts only at the first vertex of a breakpoint pair |
| InvDist.IdentityFormula | ext/libd/invdist.cpp:496-500 | for the identity, no breakpoints, cycles, blocks or hurdles: the formula gives 0 |

## Left out

- The multi-chromosome branch of `_inversions` (ext/libd/distances.cpp:204-214) is dead code. The chromosome count is always 1, and the branch would leave the result uninitialised.
- `Inversions` requires that genomes which pass validation be numbered 1..N. The source indexes arrays of size 2N+2 by gene number, so other gene numbers are out-of-bounds accesses with no defined result.
- Duplicates, DCJ and Inversions require non-empty genomes. The source computes `genes.size()-1` as an unsigned number on an empty list, and then reads past its end.
- Memory management is not modelled: the allocation and release of `distmem_t` (`new`/`delete`) and the aliasing of its arrays between phases. Each phase gets fresh sequences, and the stale contents the source reads are parameters.
- `num_block` is never read, and the `bID` counter of `_breakpoints` is never used, so neither is modelled.
- InvDist.InvdistNoncircular: the contract states the value of the formula, its uniqueness and its basic bounds. It does not prove that the value is the minimum number of reversals (the Hannenhalli–Pevzner theorem), which is outside the source.
- The `+ 1` for a circular genome in `_inversions` is modelled as written, with no claim about what it counts.
- Integer overflow: the distance and the counts stay below 2N+2. Gene values are modelled as 16-bit (`Gene`), so the source's `int` arithmetic cannot overflow, and unbounded integers are used.

