/**
 Breakpoints of an extended permutation (`num_breakpoints` in
 ext/libd/invdist.cpp). The n positions form n/2 pairs (2k, 2k+1), the black
 edges; a pair is an adjacency when its two values are consecutive and a
 breakpoint otherwise.
 */
module GraphBreakpoints {
  import opened Counting
  import opened Graph
  import opened Extended

  /** Are x and y consecutive integers, in either order? */
  predicate Consecutive(x: int, y: int) {
    x == y + 1 || y == x + 1
  }

  predicate BreakpointAt(perm: seq<int>, k: int)
    requires 0 <= k && 2 * k + 1 < |perm|
  {
    !Consecutive(perm[2 * k], perm[2 * k + 1])
  }

  /** The number of breakpoints among the first m pairs. */
  function Breaks(perm: seq<int>, m: int): (b: nat)
    requires 0 <= m && 2 * m <= |perm|
    ensures b <= m
  {
    if m == 0 then 0
    else Breaks(perm, m - 1) + (if BreakpointAt(perm, m - 1) then 1 else 0)
  }

  /** `num_breakpoints`: pair 0 is compared with the value 1 directly, the
      other pairs in the loop. The `== size` wrap to 1 never fires, because
      every value is below size. */
  method NumBreakpoints(perm: seq<int>) returns (b: int)
    requires |perm| >= 2 && |perm| % 2 == 0
    requires InRange(perm, |perm|) && perm[0] == 0
    ensures b == Breaks(perm, |perm| / 2)
    ensures 0 <= b <= |perm| / 2
  {
    var size := |perm|;
    b := 0;
    if perm[1] != 1 {
      b := b + 1;
    }
    var i := 2;
    while i < size - 1
      invariant 2 <= i <= size && i % 2 == 0
      invariant b == Breaks(perm, i / 2)
    {
      var pA := perm[i];
      var pA1 := if pA == size then 1 else pA + 1;
      var pB := perm[i + 1];
      var pB1 := if pB == size then 1 else pB + 1;
      if pB != pA1 && pA != pB1 {
        b := b + 1;
      }
      i := i + 2;
    }
  }

  /** The other marker of the gene whose marker is v >= 1. */
  function SlotPartner(v: int): int {
    if v % 2 == 1 then v + 1 else v - 1
  }

  /** Two consecutive values that are not markers of one gene are the ends
      of a black edge of the value graph. */
  lemma ConsecutiveMate(x: int, y: int)
    requires y >= 1 && Consecutive(x, y) && x != SlotPartner(y)
    ensures y == Mate(x)
  {
  }

  /** In an extended permutation, pair k is a breakpoint exactly when its
      first position carries a grey edge. */
  lemma BreakpointIsGrey(perm: seq<int>, k: int)
    requires IsExtended(perm) && 0 <= k && 2 * k + 1 < |perm|
    ensures IsPermutation(perm)
    ensures BreakpointAt(perm, k) <==> Grey(perm, 2 * k) != -1
  {
    var n := |perm|;
    MateFacts(2 * k, n);
    // pair 0 starts at value 0 and the last pair ends at n-1; in between,
    // the value after perm[2k] is a different gene from perm[2k]'s
    if 0 < k && 2 * k + 1 < n - 1 {
      var x, y := perm[2 * k], perm[2 * k + 1];
      assert SlotHolds(perm, 2 * k + 1);
      assert perm[2 * k + 2] == SlotPartner(y) && y >= 1;
      assert x != perm[2 * k + 2];
      if Consecutive(x, y) {
        ConsecutiveMate(x, y);
      }
    }
  }

  /** The identity has no breakpoints. */
  lemma {:induction false} IdentityNoBreaks(n: nat, m: nat)
    requires 2 * m <= n
    ensures Breaks(Identity(n), m) == 0
  {
    if m > 0 {
      IdentityNoBreaks(n, m - 1);
    }
  }
}
