/**
 Shared data types and constants of the rearrangement-distance library:
 the sentinel error codes, the hurdle bit flags, the genome record, the
 component record and the per-call workspace.
 */
module Structs {

  /** The library's failure conditions. Each is reported as a negative sentinel
      integer in place of a distance. */
  datatype ErrorKind = Content | Duplicates | Circular | MultiChr | NotImpl

  /** The sentinel integer reported for each failure condition. */
  function Code(e: ErrorKind): (r: int)
    ensures r < 0
    ensures -5 <= r
  {
    match e
    case Content => -1
    case Duplicates => -2
    case Circular => -3
    case MultiChr => -4
    case NotImpl => -5
  }

  /** Distinct conditions are reported with distinct codes, so a caller can tell
      them apart, and no code can be mistaken for a (non-negative) distance. */
  lemma CodeInjective(e1: ErrorKind, e2: ErrorKind)
    ensures Code(e1) == Code(e2) ==> e1 == e2
    ensures Code(e1) < 0
  {
  }

  const ERR_CONTENT: int := Code(Content)
  const ERR_DUPLICATES: int := Code(Duplicates)
  const ERR_CIRCULAR: int := Code(Circular)
  const ERR_MULTICHR: int := Code(MultiChr)
  const ERR_NOTIMPL: int := Code(NotImpl)

  /** Hurdle property flags of a component, one bit each. */
  const HURDLE: bv8 := 1
  const GREATHURDLE: bv8 := 2
  const SUPERHURDLE: bv8 := 4

  predicate IsFlag(flag: bv8) {
    flag == HURDLE || flag == GREATHURDLE || flag == SUPERHURDLE
  }

  predicate HasFlag(mask: bv8, flag: bv8) {
    mask & flag != 0
  }

  /** Setting one flag in a mask turns that flag on and leaves every other
      flag as it was: the three flags occupy distinct bits. */
  function SetFlag(mask: bv8, flag: bv8): (r: bv8)
    requires IsFlag(flag)
    ensures HasFlag(r, flag)
    ensures forall g :: IsFlag(g) && g != flag ==> (HasFlag(r, g) <==> HasFlag(mask, g))
  {
    mask | flag
  }

  /** Gene identifiers are stored in a signed 16-bit slot. */
  type Gene = x: int | -32768 <= x < 32768

  /** One chromosome: a signed gene order and whether it is circular. */
  datatype Genome = Genome(elements: seq<Gene>, circular: bool)

  function Abs(x: int): nat {
    if x < 0 then -x else x
  }

  /** The per-component record filled in by the component and hurdle analysis. */
  datatype Component = Component(
    index: int,      // index of the component's root vertex
    oriented: bool,  // does the component contain an oriented grey edge
    blocks: int,     // number of blocks of an unoriented component
    hurdle: bv8,     // HURDLE / GREATHURDLE / SUPERHURDLE flags
    left: int,       // component to the left of the rightmost block, or -1
    right: int)      // component to the right of the rightmost block, or -1

  const NoComponent: Component := Component(0, false, 0, 0, -1, -1)

  /** The scratch arrays of one distance computation. */
  datatype Workspace = Workspace(
    perm1: seq<int>, perm2: seq<int>, perm: seq<int>, done: seq<int>,
    greyEdges: seq<int>, stack: seq<int>, oriented: seq<int>, cc: seq<int>,
    labeled: seq<int>, components: seq<Component>)

  predicate Sized(w: Workspace, n: nat) {
    && |w.perm1| == n && |w.perm2| == n && |w.perm| == n && |w.done| == n
    && |w.greyEdges| == n && |w.stack| == n && |w.oriented| == n && |w.cc| == n
    && |w.labeled| == n && |w.components| == n
  }

  /** The workspace for an extended permutation of length n: every array,
      the component records included, has exactly n entries. */
  function NewWorkspace(n: nat): (w: Workspace)
    ensures Sized(w, n)
    ensures forall i :: 0 <= i < n ==> w.components[i] == NoComponent
  {
    var z := seq(n, _ => 0);
    Workspace(z, z, z, z, z, z, z, z, z, seq(n, _ => NoComponent))
  }
}
