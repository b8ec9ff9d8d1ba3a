/**
 Hurdles and fortresses of the breakpoint graph (`num_hurdles_and_fortress`
 in ext/libd/invdist.cpp), following the linear-time scan of Kaplan,
 Shamir and Tarjan.

 A grey edge is oriented when its two ends are an even distance apart, and
 a component is oriented when one of its vertices is. Reading the vertices
 left to right and keeping only those of unoriented components gives a
 sequence of component indices; collapsing its runs gives the blocks. An
 unoriented component made of one block is a hurdle, and so is one whose
 two blocks are the first and the last (it wraps around). A hurdle whose
 rightmost block sits between two blocks of one 2-block component that is
 not the wrap-around hurdle is a superhurdle; an odd number of hurdles, at
 least three and all superhurdles, makes a fortress.
 */
module Hurdles {
  import opened Structs
  import opened Graph
  import opened Components
  import opened Interleaving

  /* ---------------- Oriented grey edges ---------------- */

  /** The grey edge at v is oriented: its ends are an even distance apart. */
  predicate OrientedAt(grey: seq<int>, v: int)
    requires 0 <= v < |grey|
  {
    grey[v] != -1 && (grey[v] - v) % 2 == 0
  }

  /** Both ends of a grey edge agree on its orientation. */
  lemma OrientedSymmetric(grey: seq<int>, v: int)
    requires GreyGraph(grey) && 0 <= v < |grey| && grey[v] != -1
    ensures 0 <= grey[v] < |grey| && (OrientedAt(grey, v) <==> OrientedAt(grey, grey[v]))
  {
    assert GreyAt(grey, v);
  }

  /** The orientation loop: each grey edge (i, j) with i < j is visited
      from i, and both ends are set; a self loop is unoriented. */
  method Orientation(grey: seq<int>) returns (oriented: seq<bool>)
    requires GreyGraph(grey)
    ensures |oriented| == |grey|
    ensures forall v :: 0 <= v < |grey| ==> (oriented[v] <==> OrientedAt(grey, v))
  {
    var size := |grey|;
    oriented := seq(size, _ => false);
    var i := 0;
    while i < size
      invariant 0 <= i <= size && |oriented| == size
      invariant forall v :: 0 <= v < size && (v < i || 0 <= grey[v] < i) ==>
        (oriented[v] <==> OrientedAt(grey, v))
    {
      var j := grey[i];
      assert GreyAt(grey, i);
      if j == -1 {
        oriented := oriented[i := false];
      } else if i < j {
        assert GreyAt(grey, j);
        if (j - i) % 2 != 0 {
          oriented := oriented[i := false][j := false];
        } else {
          oriented := oriented[i := true][j := true];
        }
      }
      var i' := i + 1;
      forall v | 0 <= v < size && (v < i' || 0 <= grey[v] < i')
        ensures oriented[v] <==> OrientedAt(grey, v)
      {
        assert GreyAt(grey, v);
      }
      i := i';
    }
  }

  /* ---------------- Oriented components ---------------- */

  /** Some oriented vertex lies in component k. */
  ghost predicate HasOriented(oriented: seq<bool>, cc: seq<int>, k: int, m: int)
    requires |oriented| == |cc| && 0 <= m <= |cc|
  {
    exists v :: 0 <= v < m && oriented[v] && cc[v] == k
  }

  /** The component-orientation loops: every record's flag is cleared, then
      set by each oriented vertex of its component. Nothing else in the
      records changes. */
  method ComponentOrientation(oriented: seq<bool>, cc: seq<int>, cs: seq<Component>)
    returns (cs': seq<Component>)
    requires |oriented| == |cc|
    requires forall v :: 0 <= v < |cc| && oriented[v] ==> 0 <= cc[v] < |cs|
    ensures |cs'| == |cs|
    ensures forall k :: 0 <= k < |cs| ==>
      cs'[k] == cs[k].(oriented := HasOriented(oriented, cc, k, |cc|))
  {
    cs' := seq(|cs|, k requires 0 <= k < |cs| => cs[k].(oriented := false));
    var i := 0;
    while i < |cc|
      invariant 0 <= i <= |cc| && |cs'| == |cs|
      invariant forall k :: 0 <= k < |cs| ==> cs'[k] == cs[k].(oriented := HasOriented(oriented, cc, k, i))
    {
      if oriented[i] {
        cs' := cs'[cc[i] := cs'[cc[i]].(oriented := true)];
      }
      forall k | 0 <= k < |cs|
        ensures cs'[k] == cs[k].(oriented := HasOriented(oriented, cc, k, i + 1))
      {
        if oriented[i] && cc[i] == k {
          assert HasOriented(oriented, cc, k, i + 1);
        } else if HasOriented(oriented, cc, k, i + 1) {
          var v :| 0 <= v < i + 1 && oriented[v] && cc[v] == k;
          assert HasOriented(oriented, cc, k, i);
        }
      }
      i := i + 1;
    }
  }

  /** The number of true entries. */
  function CountTrue(xs: seq<bool>): (r: nat)
    ensures r <= |xs|
    ensures r == 0 <==> forall k :: 0 <= k < |xs| ==> !xs[k]
  {
    if xs == [] then 0
    else
      var r := CountTrue(xs[..|xs| - 1]);
      assert forall k :: 0 <= k < |xs| - 1 ==> xs[..|xs| - 1][k] == xs[k];
      if xs[|xs| - 1] then r + 1 else r
  }

  /** Setting one false entry to true adds one to the count. */
  lemma {:induction false} CountTrueSet(xs: seq<bool>, k: int)
    requires 0 <= k < |xs| && !xs[k]
    ensures CountTrue(xs[k := true]) == CountTrue(xs) + 1
    decreases |xs|
  {
    var ys := xs[k := true];
    var n := |xs| - 1;
    assert CountTrue(xs) == CountTrue(xs[..n]) + if xs[n] then 1 else 0;
    assert CountTrue(ys) == CountTrue(ys[..n]) + if ys[n] then 1 else 0;
    if k < n {
      assert ys[..n] == xs[..n][k := true];
      CountTrueSet(xs[..n], k);
    } else {
      assert ys[..n] == xs[..n];
    }
  }

  /** The count of the first i entries grows by entry i. */
  lemma CountTruePrefix(xs: seq<bool>, i: int)
    requires 0 <= i < |xs|
    ensures CountTrue(xs[..i + 1]) == CountTrue(xs[..i]) + if xs[i] then 1 else 0
  {
    assert xs[..i + 1][..i] == xs[..i];
  }

  /** The number of unoriented components (the source keeps it in a variable
      named num_oriented). */
  function CountUnoriented(cs: seq<Component>): (r: nat)
    ensures r <= |cs|
    ensures r == 0 <==> forall k :: 0 <= k < |cs| ==> cs[k].oriented
  {
    var xs := seq(|cs|, k requires 0 <= k < |cs| => !cs[k].oriented);
    assert forall k :: 0 <= k < |cs| ==> xs[k] == !cs[k].oriented;
    CountTrue(xs)
  }

  /** The orientation flags of the records. */
  function Orients(cs: seq<Component>): (co: seq<bool>)
    ensures |co| == |cs| && forall k :: 0 <= k < |cs| ==> co[k] == cs[k].oriented
  {
    seq(|cs|, k requires 0 <= k < |cs| => cs[k].oriented)
  }

  /* ---------------- Blocks ---------------- */

  /** Every cc entry is -1 or a component index below m. */
  predicate CcRange(cc: seq<int>, m: int) {
    forall v :: 0 <= v < |cc| ==> -1 <= cc[v] < m
  }

  /** The component indices of the vertices, left to right, keeping only
      those of unoriented components. */
  function Marks(cc: seq<int>, co: seq<bool>): (us: seq<int>)
    requires CcRange(cc, |co|)
    ensures forall j :: 0 <= j < |us| ==> 0 <= us[j] < |co| && !co[us[j]]
  {
    if cc == [] then []
    else
      var front := cc[..|cc| - 1];
      assert CcRange(front, |co|) by {
        assert forall v :: 0 <= v < |front| ==> front[v] == cc[v];
      }
      Marks(front, co) + Mark(co, cc[|cc| - 1])
  }

  /** The mark of one vertex in component c: c itself if c is unoriented. */
  function Mark(co: seq<bool>, c: int): (us: seq<int>)
    requires -1 <= c < |co|
  {
    if c != -1 && !co[c] then [c] else []
  }

  /** xs with every run of equal neighbours collapsed to one element. */
  function Collapse(xs: seq<int>): (bs: seq<int>)
    ensures |bs| <= |xs| && (bs == [] <==> xs == [])
    ensures xs != [] ==> bs[0] == xs[0] && bs[|bs| - 1] == xs[|xs| - 1]
    ensures forall j :: 0 <= j < |bs| - 1 ==> bs[j] != bs[j + 1]
  {
    if xs == [] then []
    else
      var front := xs[..|xs| - 1];
      var x := xs[|xs| - 1];
      var p := Collapse(front);
      if p != [] && p[|p| - 1] == x then p else p + [x]
  }

  /** Appending to the marks extends the last block or starts a new one. */
  lemma CollapseSnoc(us: seq<int>, x: int)
    ensures var bs := Collapse(us);
      Collapse(us + [x]) == if bs != [] && bs[|bs| - 1] == x then bs else bs + [x]
  {
    assert (us + [x])[..|us|] == us;
  }

  /** Collapsing keeps every value. */
  lemma {:induction false} CollapseKeeps(us: seq<int>, c: int)
    ensures c in Collapse(us) <==> c in us
    decreases |us|
  {
    if us != [] {
      var front := us[..|us| - 1];
      var x := us[|us| - 1];
      assert us == front + [x];
      CollapseKeeps(front, c);
      CollapseSnoc(front, x);
    }
  }

  /** All occurrences of c in us are next to each other. */
  ghost predicate Contiguous(us: seq<int>, c: int) {
    forall i, m, j :: 0 <= i < m < j < |us| && us[i] == c && us[j] == c ==> us[m] == c
  }

  /** Appending a value other than c keeps c's occurrences as they are. */
  lemma ContiguousOther(front: seq<int>, x: int, c: int)
    requires x != c
    ensures Contiguous(front + [x], c) <==> Contiguous(front, c)
  {
    var us := front + [x];
    assert forall t :: 0 <= t < |front| ==> front[t] == us[t];
    if Contiguous(front, c) {
      forall i, m, j | 0 <= i < m < j < |us| && us[i] == c && us[j] == c
        ensures us[m] == c
      {
        assert front[i] == c && front[j] == c && front[m] == us[m];
      }
    }
  }

  /** Appending c right after an occurrence of c extends that run. */
  lemma ContiguousRun(front: seq<int>, c: int)
    requires front != [] && front[|front| - 1] == c
    ensures Contiguous(front + [c], c) <==> Contiguous(front, c)
  {
    var us := front + [c];
    var n := |front|;
    assert forall t :: 0 <= t < n ==> front[t] == us[t];
    if Contiguous(front, c) {
      forall i, m, j | 0 <= i < m < j < |us| && us[i] == c && us[j] == c
        ensures us[m] == c
      {
        if j < n {
          assert front[i] == c && front[j] == c && front[m] == us[m];
        } else if m < n - 1 {
          assert front[i] == c && front[n - 1] == c && front[m] == us[m];
        }
      }
    }
  }

  /** Appending c after a different value: c stays contiguous exactly when
      it did not occur before. */
  lemma ContiguousNew(front: seq<int>, c: int)
    requires front == [] || front[|front| - 1] != c
    ensures Contiguous(front + [c], c) <==> c !in front
  {
    var us := front + [c];
    var n := |front|;
    assert forall t :: 0 <= t < n ==> us[t] == front[t];
    if c in front {
      var i :| 0 <= i < n && front[i] == c;
      assert us[i] == c && us[n] == c && i < n - 1 && us[n - 1] != c;
    }
  }

  /** One block of c and contiguous occurrences. */
  ghost predicate OneBlock(us: seq<int>, c: int) {
    multiset(Collapse(us))[c] == 1
  }

  ghost predicate OneRun(us: seq<int>, c: int) {
    c in us && Contiguous(us, c)
  }

  /** One step of OneBlockContiguous: appending x to front. */
  lemma OneBlockSnoc(front: seq<int>, x: int, c: int)
    requires OneBlock(front, c) <==> OneRun(front, c)
    ensures OneBlock(front + [x], c) <==> OneRun(front + [x], c)
  {
    var p := Collapse(front);
    if x != c {
      OneBlockOther(front, x, c);
    } else if p != [] && p[|p| - 1] == c {
      OneBlockRun(front, c);
    } else {
      OneBlockNew(front, c);
    }
  }

  lemma OneBlockOther(front: seq<int>, x: int, c: int)
    requires x != c && (OneBlock(front, c) <==> OneRun(front, c))
    ensures OneBlock(front + [x], c) <==> OneRun(front + [x], c)
  {
    CollapseSnoc(front, x);
    ContiguousOther(front, x, c);
    var p := Collapse(front);
    assert multiset(Collapse(front + [x]))[c] == multiset(p)[c];
  }

  lemma OneBlockRun(front: seq<int>, c: int)
    requires OneBlock(front, c) <==> OneRun(front, c)
    requires var p := Collapse(front); p != [] && p[|p| - 1] == c
    ensures OneBlock(front + [c], c) <==> OneRun(front + [c], c)
  {
    CollapseSnoc(front, c);
    ContiguousRun(front, c);
    assert front[|front| - 1] == c;
  }

  lemma OneBlockNew(front: seq<int>, c: int)
    requires var p := Collapse(front); p == [] || p[|p| - 1] != c
    ensures OneBlock(front + [c], c) <==> OneRun(front + [c], c)
  {
    CollapseSnoc(front, c);
    CollapseKeeps(front, c);
    ContiguousNew(front, c);
    var p := Collapse(front);
    assert multiset(Collapse(front + [c]))[c] == multiset(p)[c] + 1;
  }

  /** A value forms exactly one block when it occurs, and all its
      occurrences are contiguous. */
  lemma {:induction false} OneBlockContiguous(us: seq<int>, c: int)
    ensures multiset(Collapse(us))[c] == 1 <==> c in us && Contiguous(us, c)
    decreases |us|
  {
    if us != [] {
      var n := |us| - 1;
      var front := us[..n];
      assert us == front + [us[n]];
      OneBlockContiguous(front, c);
      OneBlockSnoc(front, us[n], c);
      assert OneBlock(us, c) <==> OneRun(us, c);
    }
  }

  /** The last position below m holding k, or -1. */
  function LastIndex(xs: seq<int>, k: int, m: int): (j: int)
    requires 0 <= m <= |xs|
    ensures -1 <= j < m && (j >= 0 ==> xs[j] == k)
    ensures forall t :: j < t < m ==> xs[t] != k
  {
    if m == 0 then -1 else if xs[m - 1] == k then m - 1 else LastIndex(xs, k, m - 1)
  }

  /** LastIndex only looks below m. */
  lemma LastIndexPrefix(xs: seq<int>, ys: seq<int>, k: int, m: int)
    requires 0 <= m <= |xs| && m <= |ys| && xs[..m] == ys[..m]
    ensures LastIndex(xs, k, m) == LastIndex(ys, k, m)
  {
    var a, b := LastIndex(xs, k, m), LastIndex(ys, k, m);
    assert forall t :: 0 <= t < m ==> xs[t] == ys[t] by {
      forall t | 0 <= t < m ensures xs[t] == ys[t] {
        assert xs[..m][t] == ys[..m][t];
      }
    }
  }

  /** The block to the left of k's rightmost block, or -1. */
  function LeftOf(bs: seq<int>, k: int): int {
    var j := LastIndex(bs, k, |bs|);
    if j <= 0 then -1 else bs[j - 1]
  }

  /** The block to the right of the rightmost block of k that has a right
      neighbour, or -1. */
  function RightOf(bs: seq<int>, k: int): int {
    if bs == [] then -1
    else
      var j := LastIndex(bs, k, |bs| - 1);
      if j == -1 then -1 else bs[j + 1]
  }

  /** Appending a new block x moves x's left neighbour to the previous last
      block. */
  lemma AppendLeft(bs: seq<int>, x: int, k: int)
    ensures LeftOf(bs + [x], k) == if k == x then (if bs == [] then -1 else bs[|bs| - 1]) else LeftOf(bs, k)
  {
    var bs' := bs + [x];
    if k != x {
      assert bs'[..|bs|] == bs[..|bs|];
      LastIndexPrefix(bs', bs, k, |bs|);
    }
  }

  /** Appending a new block x gives the previous last block x as its right
      neighbour. */
  lemma AppendRight(bs: seq<int>, x: int, k: int)
    ensures RightOf(bs + [x], k) == if bs != [] && k == bs[|bs| - 1] then x else RightOf(bs, k)
  {
    var bs' := bs + [x];
    if bs != [] && k != bs[|bs| - 1] {
      assert bs'[..|bs| - 1] == bs[..|bs| - 1];
      LastIndexPrefix(bs', bs, k, |bs| - 1);
    }
  }

  /** The blocks of the first i + 1 vertices. */
  lemma MarksStep(cc: seq<int>, co: seq<bool>, i: int)
    requires CcRange(cc, |co|) && 0 <= i < |cc|
    ensures CcRange(cc[..i], |co|) && CcRange(cc[..i + 1], |co|)
    ensures var bs := Collapse(Marks(cc[..i], co));
      var c := cc[i];
      Collapse(Marks(cc[..i + 1], co)) ==
        if c != -1 && !co[c] && (bs == [] || bs[|bs| - 1] != c) then bs + [c] else bs
  {
    MarksPrefix(cc, co, i);
    var us := Marks(cc[..i], co);
    var c := cc[i];
    if c != -1 && !co[c] {
      CollapseSnoc(us, c);
    } else {
      assert us + Mark(co, c) == us;
    }
  }

  /** The marks of the first i + 1 vertices. */
  lemma MarksPrefix(cc: seq<int>, co: seq<bool>, i: int)
    requires CcRange(cc, |co|) && 0 <= i < |cc|
    ensures CcRange(cc[..i], |co|) && CcRange(cc[..i + 1], |co|)
    ensures Marks(cc[..i + 1], co) == Marks(cc[..i], co) + Mark(co, cc[i])
  {
    assert forall v :: 0 <= v < i + 1 ==> cc[..i + 1][v] == cc[v];
    assert cc[..i + 1][..i] == cc[..i];
  }

  /** The records after the blocks bs: counts and neighbours as bs gives
      them, every other field as in cs. */
  ghost predicate BlockState(cs: seq<Component>, cs': seq<Component>, bs: seq<int>, first: int, last: int) {
    && |cs'| == |cs|
    && (forall j :: 0 <= j < |bs| ==> 0 <= bs[j] < |cs|)
    && first == (if bs == [] then -1 else bs[0])
    && last == (if bs == [] then -1 else bs[|bs| - 1])
    && forall k :: 0 <= k < |cs| ==> cs'[k] == BlockRecord(cs[k], bs, k)
  }

  /** Record k with the block count and neighbours of k in bs. */
  function BlockRecord(c: Component, bs: seq<int>, k: int): Component {
    c.(blocks := multiset(bs)[k], left := LeftOf(bs, k), right := RightOf(bs, k))
  }

  /** Record k once a block of c follows a block of last. */
  function NewBlock(cs: seq<Component>, c: int, last: int, k: int): Component
    requires 0 <= k < |cs| && 0 <= c < |cs| && -1 <= last < |cs|
  {
    if k == c then cs[c].(left := last, blocks := cs[c].blocks + 1)
    else if k == last then cs[last].(right := c)
    else cs[k]
  }

  /** A new block of component c after the blocks bs. */
  lemma AppendState(cs: seq<Component>, cs': seq<Component>, bs: seq<int>, first: int, last: int,
                    c: int, cs2: seq<Component>)
    requires BlockState(cs, cs', bs, first, last) && 0 <= c < |cs| && c != last
    requires |cs2| == |cs|
    requires forall k :: 0 <= k < |cs| ==> cs2[k] == NewBlock(cs', c, last, k)
    ensures BlockState(cs, cs2, bs + [c], if last == -1 then c else first, c)
  {
    var bs' := bs + [c];
    forall k | 0 <= k < |cs|
      ensures cs2[k] == BlockRecord(cs[k], bs', k)
    {
      AppendAt(cs[k], cs', bs, last, c, k);
    }
  }

  /** Record k after a new block of c: the record the appended blocks give. */
  lemma AppendAt(r: Component, cs': seq<Component>, bs: seq<int>, last: int, c: int, k: int)
    requires 0 <= k < |cs'| && 0 <= c < |cs'| && -1 <= last < |cs'| && c != last
    requires last == if bs == [] then -1 else bs[|bs| - 1]
    requires cs'[k] == BlockRecord(r, bs, k)
    ensures NewBlock(cs', c, last, k) == BlockRecord(r, bs + [c], k)
  {
    AppendLeft(bs, c, k);
    AppendRight(bs, c, k);
    assert multiset(bs + [c])[k] == multiset(bs)[k] + if k == c then 1 else 0;
  }

  /** One vertex of the block scan, in component c (-1 for a self loop). */
  method BlockStep(cs: seq<Component>, cs': seq<Component>, ghost bs: seq<int>, first: int, last: int, c: int)
    returns (cs2: seq<Component>, ghost bs2: seq<int>, first2: int, last2: int)
    requires BlockState(cs, cs', bs, first, last) && -1 <= c < |cs|
    ensures BlockState(cs, cs2, bs2, first2, last2)
    ensures bs2 == if c != -1 && !cs[c].oriented && (bs == [] || bs[|bs| - 1] != c) then bs + [c] else bs
  {
    cs2, bs2, first2, last2 := cs', bs, first, last;
    if c != -1 {
      assert cs'[c] == BlockRecord(cs[c], bs, c);
      if !cs'[c].oriented {
        if c != last {
          if last == -1 {
            first2 := c;
          } else {
            cs2 := cs2[last := cs2[last].(right := c)];
            cs2 := cs2[c := cs2[c].(left := last)];
          }
          last2 := c;
          cs2 := cs2[c := cs2[c].(blocks := cs2[c].blocks + 1)];
          if last == -1 {
            assert LeftOf(bs, c) == -1;
          }
          AppendState(cs, cs', bs, first, last, c, cs2);
          bs2 := bs + [c];
        }
      }
    }
  }

  /** The block scan: reading the vertices left to right, each change to a
      new unoriented component starts a block; the block's component
      counts it, takes the previous block's component as its left
      neighbour and becomes that component's right neighbour. first and
      last are the components of the first and last blocks. */
  method BlockScan(cc: seq<int>, cs: seq<Component>) returns (cs': seq<Component>, first: int, last: int)
    requires CcRange(cc, |cs|)
    requires forall k :: 0 <= k < |cs| ==> cs[k].blocks == 0 && cs[k].left == -1 && cs[k].right == -1
    ensures BlockState(cs, cs', Collapse(Marks(cc, Orients(cs))), first, last)
  {
    ghost var co := Orients(cs);
    ghost var bs: seq<int> := [];
    cs', first, last := cs, -1, -1;
    forall k | 0 <= k < |cs|
      ensures cs'[k] == BlockRecord(cs[k], bs, k)
    {
    }
    var i := 0;
    while i < |cc|
      invariant 0 <= i <= |cc| && CcRange(cc[..i], |co|)
      invariant bs == Collapse(Marks(cc[..i], co))
      invariant BlockState(cs, cs', bs, first, last)
    {
      cs', bs, first, last := BlockVisit(cc, cs, cs', bs, first, last, i);
      i := i + 1;
    }
    assert cc[..i] == cc;
  }

  /** The block scan at vertex i: the blocks of the first i vertices become
      those of the first i + 1. */
  method BlockVisit(cc: seq<int>, cs: seq<Component>, cs': seq<Component>, ghost bs: seq<int>,
                    first: int, last: int, i: int)
    returns (cs2: seq<Component>, ghost bs2: seq<int>, first2: int, last2: int)
    requires CcRange(cc, |cs|) && 0 <= i < |cc| && CcRange(cc[..i], |cs|)
    requires bs == Collapse(Marks(cc[..i], Orients(cs)))
    requires BlockState(cs, cs', bs, first, last)
    ensures CcRange(cc[..i + 1], |cs|)
    ensures bs2 == Collapse(Marks(cc[..i + 1], Orients(cs)))
    ensures BlockState(cs, cs2, bs2, first2, last2)
  {
    MarksStep(cc, Orients(cs), i);
    cs2, bs2, first2, last2 := BlockStep(cs, cs', bs, first, last, cc[i]);
  }

  /* ---------------- Hurdles ---------------- */

  /** Which records carry a hurdle flag. */
  function HurdleFlags(cs: seq<Component>): (xs: seq<bool>)
    ensures |xs| == |cs| && forall k :: 0 <= k < |cs| ==> xs[k] == (cs[k].hurdle != 0)
  {
    seq(|cs|, k requires 0 <= k < |cs| => cs[k].hurdle != 0)
  }

  /** The hurdle bits the marking loop gives record k: HURDLE for an
      unoriented one-block component, HURDLE | GREATHURDLE for the component
      of both the first and the last block when it has two blocks. */
  function HurdleBits(cs: seq<Component>, first: int, last: int, k: int): bv8
    requires 0 <= k < |cs| && 0 <= first < |cs|
  {
    if !cs[k].oriented && cs[k].blocks == 1 then HURDLE
    else if k == first && first == last && cs[first].blocks == 2 then HURDLE | GREATHURDLE
    else 0
  }

  /** The hurdle-marking loop and the wrap-around check after it; h counts
      the components marked. */
  method MarkHurdles(cs: seq<Component>, first: int, last: int) returns (cs': seq<Component>, h: int)
    requires 0 <= first < |cs| && 0 <= last < |cs|
    requires forall k :: 0 <= k < |cs| ==> cs[k].hurdle == 0
    ensures |cs'| == |cs|
    ensures forall k :: 0 <= k < |cs| ==> cs'[k] == cs[k].(hurdle := HurdleBits(cs, first, last, k))
    ensures h == CountTrue(HurdleFlags(cs'))
  {
    cs', h := cs, 0;
    assert HurdleFlags(cs') == seq(|cs|, _ => false);
    var k := 0;
    while k < |cs|
      invariant 0 <= k <= |cs| && |cs'| == |cs| && h == CountTrue(HurdleFlags(cs'))
      invariant forall j :: 0 <= j < |cs| ==> cs'[j] == cs[j].(hurdle := SimpleBits(cs, j, k))
    {
      if !cs'[k].oriented && cs'[k].blocks == 1 {
        FlagCounted(cs', k, HURDLE);
        cs' := cs'[k := cs'[k].(hurdle := HURDLE)];
        h := h + 1;
      }
      k := k + 1;
    }
    cs', h := MarkWrap(cs, cs', h, first, last);
  }

  /** The check after the marking loop: the component of both the first and
      the last block, when it has just those two blocks, is the wrap-around
      hurdle. */
  method MarkWrap(cs: seq<Component>, cs': seq<Component>, h: int, first: int, last: int)
    returns (cs2: seq<Component>, h2: int)
    requires 0 <= first < |cs| && 0 <= last < |cs| && |cs'| == |cs|
    requires forall j :: 0 <= j < |cs| ==> cs'[j] == cs[j].(hurdle := SimpleBits(cs, j, |cs|))
    requires h == CountTrue(HurdleFlags(cs'))
    ensures |cs2| == |cs|
    ensures forall k :: 0 <= k < |cs| ==> cs2[k] == cs[k].(hurdle := HurdleBits(cs, first, last, k))
    ensures h2 == CountTrue(HurdleFlags(cs2))
  {
    cs2, h2 := cs', h;
    if first == last && cs'[first].blocks == 2 {
      FlagCounted(cs', first, HURDLE | GREATHURDLE);
      cs2 := cs'[first := cs'[first].(hurdle := HURDLE | GREATHURDLE)];
      h2 := h + 1;
    }
  }

  /** The bits of record j once the loop has passed the records below k. */
  function SimpleBits(cs: seq<Component>, j: int, k: int): bv8
    requires 0 <= j < |cs|
  {
    if j < k && !cs[j].oriented && cs[j].blocks == 1 then HURDLE else 0
  }

  /** Setting nonzero bits on an unmarked record adds one to the count. */
  lemma FlagCounted(cs: seq<Component>, k: int, bits: bv8)
    requires 0 <= k < |cs| && cs[k].hurdle == 0 && bits != 0
    ensures CountTrue(HurdleFlags(cs[k := cs[k].(hurdle := bits)])) == CountTrue(HurdleFlags(cs)) + 1
  {
    assert HurdleFlags(cs[k := cs[k].(hurdle := bits)]) == HurdleFlags(cs)[k := true];
    CountTrueSet(HurdleFlags(cs), k);
  }

  /* ---------------- Superhurdles and the fortress ---------------- */

  /** The superhurdle test of record k: the components left and right of
      its rightmost block are one component, which has two blocks and is
      not the wrap-around hurdle. */
  predicate Protected(cs: seq<Component>, k: int)
    requires 0 <= k < |cs|
  {
    var l := cs[k].left;
    && l == cs[k].right && 0 <= l < |cs|
    && cs[l].blocks == 2 && !HasFlag(cs[l].hurdle, GREATHURDLE)
  }

  /** The superhurdle loop and the fortress test: the first hurdle that is
      not a superhurdle ends the search with no fortress; if every hurdle is
      one, there is a fortress exactly when their number is odd. The
      source's further test that the hurdles and superhurdles are equally
      many always holds once the loop completes. */
  method Superhurdles(cs: seq<Component>, h: int) returns (cs': seq<Component>, f: int)
    requires h == CountTrue(HurdleFlags(cs))
    requires forall k :: 0 <= k < |cs| ==> -1 <= cs[k].left < |cs|
    ensures f == if h % 2 == 1 && AllProtected(cs) then 1 else 0
    ensures |cs'| == |cs| && forall k :: 0 <= k < |cs| ==> cs'[k] == cs[k].(hurdle := cs'[k].hurdle)
    ensures f == 1 ==> forall k :: 0 <= k < |cs| && cs[k].hurdle != 0 ==> HasFlag(cs'[k].hurdle, SUPERHURDLE)
  {
    cs' := cs;
    var sh := 0;
    var k := 0;
    while k < |cs|
      invariant 0 <= k <= |cs| && sh == CountTrue(HurdleFlags(cs)[..k])
      invariant SuperInv(cs, cs', k)
    {
      var stop;
      cs', sh, stop := SuperVisit(cs, cs', sh, k);
      if stop {
        f := 0;
        return;
      }
      k := k + 1;
    }
    SuperAll(cs, cs', sh);
    if h == sh && sh % 2 == 1 {
      f := 1;
    } else {
      f := 0;
    }
  }

  /** One pass of the superhurdle loop at record k: a hurdle whose left and
      right neighbours are one two-block component that is not the
      wrap-around hurdle gains SUPERHURDLE; any other hurdle stops the loop;
      a record without hurdle bits is passed over. */
  method SuperVisit(cs: seq<Component>, cs': seq<Component>, sh: int, k: int)
    returns (cs1: seq<Component>, sh1: int, stop: bool)
    requires SuperInv(cs, cs', k) && 0 <= k < |cs|
    requires forall j :: 0 <= j < |cs| ==> -1 <= cs[j].left < |cs|
    requires sh == CountTrue(HurdleFlags(cs)[..k])
    ensures |cs1| == |cs|
    ensures stop ==> !AllProtected(cs)
    ensures stop ==> forall j :: 0 <= j < |cs| ==> cs1[j] == cs[j].(hurdle := cs1[j].hurdle)
    ensures !stop ==> SuperInv(cs, cs1, k + 1) && sh1 == CountTrue(HurdleFlags(cs)[..k + 1])
  {
    CountTruePrefix(HurdleFlags(cs), k);
    assert SuperStep(cs, cs', k, k);
    cs1, sh1, stop := cs', sh, false;
    if cs'[k].hurdle != 0 {
      var l := cs'[k].left;
      if l == cs'[k].right && l != -1 {
        assert SuperStep(cs, cs', l, k);
        if cs'[l].blocks == 2 && cs'[l].hurdle & GREATHURDLE == 0 {
          cs1 := cs'[k := cs'[k].(hurdle := SetFlag(cs'[k].hurdle, SUPERHURDLE))];
          SuperPass(cs, cs', k, cs1);
          sh1 := sh + 1;
        } else {
          SuperStop(cs, cs', k);
          stop := true;
        }
      } else {
        SuperStop(cs, cs', k);
        stop := true;
      }
    } else {
      SuperSkip(cs, cs', k);
    }
  }

  /** Every hurdle passes the superhurdle test. */
  ghost predicate AllProtected(cs: seq<Component>) {
    forall k :: 0 <= k < |cs| && cs[k].hurdle != 0 ==> Protected(cs, k)
  }

  /** Record j during the superhurdle loop before record k: only its hurdle
      bits may have changed, and only by SUPERHURDLE, which every hurdle
      before k has gained after passing the test. */
  ghost predicate SuperStep(cs: seq<Component>, cs': seq<Component>, j: int, k: int)
    requires 0 <= j < |cs| == |cs'|
  {
    && cs'[j] == cs[j].(hurdle := cs'[j].hurdle)
    && (cs'[j].hurdle != 0 <==> cs[j].hurdle != 0)
    && (HasFlag(cs'[j].hurdle, GREATHURDLE) <==> HasFlag(cs[j].hurdle, GREATHURDLE))
    && (j < k && cs[j].hurdle != 0 ==> Protected(cs, j) && HasFlag(cs'[j].hurdle, SUPERHURDLE))
  }

  ghost predicate SuperInv(cs: seq<Component>, cs': seq<Component>, k: int) {
    |cs'| == |cs| && forall j :: 0 <= j < |cs| ==> SuperStep(cs, cs', j, k)
  }

  /** A hurdle that passes the test gains SUPERHURDLE. */
  lemma SuperPass(cs: seq<Component>, cs': seq<Component>, k: int, cs1: seq<Component>)
    requires SuperInv(cs, cs', k) && 0 <= k < |cs| && cs'[k].hurdle != 0
    requires forall j :: 0 <= j < |cs| ==> -1 <= cs[j].left < |cs|
    requires var l := cs[k].left;
      && l == cs[k].right && l != -1
      && cs[l].blocks == 2 && cs'[l].hurdle & GREATHURDLE == 0
    requires cs1 == cs'[k := cs'[k].(hurdle := SetFlag(cs'[k].hurdle, SUPERHURDLE))]
    ensures SuperInv(cs, cs1, k + 1)
  {
    var j' := k + 1;
    var l := cs[k].left;
    assert SuperStep(cs, cs', k, k);
    assert SuperStep(cs, cs', l, k);
    forall j | 0 <= j < |cs|
      ensures SuperStep(cs, cs1, j, j')
    {
      assert SuperStep(cs, cs', j, k);
    }
  }

  /** A record without a hurdle flag is passed over. */
  lemma SuperSkip(cs: seq<Component>, cs': seq<Component>, k: int)
    requires SuperInv(cs, cs', k) && 0 <= k < |cs| && cs'[k].hurdle == 0
    ensures SuperInv(cs, cs', k + 1)
  {
    var j' := k + 1;
    assert SuperStep(cs, cs', k, k);
    forall j | 0 <= j < |cs|
      ensures SuperStep(cs, cs', j, j')
    {
      assert SuperStep(cs, cs', j, k);
    }
  }

  /** A hurdle that fails the test: not every hurdle is protected. */
  lemma SuperStop(cs: seq<Component>, cs': seq<Component>, k: int)
    requires SuperInv(cs, cs', k) && 0 <= k < |cs| && cs'[k].hurdle != 0
    requires forall j :: 0 <= j < |cs| ==> -1 <= cs[j].left < |cs|
    requires var l := cs[k].left;
      !(l == cs[k].right && l != -1 && cs[l].blocks == 2 && cs'[l].hurdle & GREATHURDLE == 0)
    ensures !AllProtected(cs)
    ensures forall j :: 0 <= j < |cs| ==> cs'[j] == cs[j].(hurdle := cs'[j].hurdle)
  {
    var l := cs[k].left;
    assert SuperStep(cs, cs', k, k);
    if 0 <= l < |cs| {
      assert SuperStep(cs, cs', l, k);
    }
    assert !Protected(cs, k);
    forall j | 0 <= j < |cs|
      ensures cs'[j] == cs[j].(hurdle := cs'[j].hurdle)
    {
      assert SuperStep(cs, cs', j, k);
    }
  }

  /** Once the loop completes every hurdle is protected and marked. */
  lemma SuperAll(cs: seq<Component>, cs': seq<Component>, sh: int)
    requires SuperInv(cs, cs', |cs|) && sh == CountTrue(HurdleFlags(cs)[..|cs|])
    ensures sh == CountTrue(HurdleFlags(cs))
    ensures AllProtected(cs)
    ensures forall k :: 0 <= k < |cs| ==> cs'[k] == cs[k].(hurdle := cs'[k].hurdle)
    ensures forall k :: 0 <= k < |cs| && cs[k].hurdle != 0 ==> HasFlag(cs'[k].hurdle, SUPERHURDLE)
  {
    assert HurdleFlags(cs)[..|cs|] == HurdleFlags(cs);
    forall j | 0 <= j < |cs|
      ensures cs'[j] == cs[j].(hurdle := cs'[j].hurdle)
      ensures cs[j].hurdle != 0 ==> Protected(cs, j) && HasFlag(cs'[j].hurdle, SUPERHURDLE)
    {
      assert SuperStep(cs, cs', j, |cs|);
    }
  }

  /* ---------------- The reference definitions ---------------- */

  /** The orientation of the components 0..m-1 read off the vertices: a
      component is oriented when one of its vertices is. */
  ghost function CompOrientation(grey: seq<int>, cc: seq<int>, m: nat): (co: seq<bool>)
    requires |cc| == |grey|
    ensures |co| == m
  {
    seq(m, k => exists v :: 0 <= v < |grey| && OrientedAt(grey, v) && cc[v] == k)
  }

  /** An unoriented component that forms a single block. */
  ghost predicate SimpleHurdle(co: seq<bool>, bs: seq<int>, k: int)
    requires 0 <= k < |co|
  {
    !co[k] && multiset(bs)[k] == 1
  }

  /** The component of both the first and the last block, with no other
      block: it wraps around the end of the sequence. */
  ghost predicate WrapHurdle(bs: seq<int>, k: int) {
    bs != [] && bs[0] == k && bs[|bs| - 1] == k && multiset(bs)[k] == 2
  }

  ghost predicate IsHurdle(co: seq<bool>, bs: seq<int>, k: int)
    requires 0 <= k < |co|
  {
    SimpleHurdle(co, bs, k) || WrapHurdle(bs, k)
  }

  /** A hurdle whose rightmost block lies between two blocks of one
      two-block component that does not wrap around. */
  ghost predicate IsSuperhurdle(bs: seq<int>, k: int) {
    var l := LeftOf(bs, k);
    l == RightOf(bs, k) && l != -1 && multiset(bs)[l] == 2 && !WrapHurdle(bs, l)
  }

  /** Which components are hurdles. */
  ghost function HurdleSeq(co: seq<bool>, bs: seq<int>): (xs: seq<bool>)
    ensures |xs| == |co| && forall k :: 0 <= k < |co| ==> xs[k] == IsHurdle(co, bs, k)
  {
    seq(|co|, k requires 0 <= k < |co| => IsHurdle(co, bs, k))
  }

  ghost function HurdleCount(co: seq<bool>, bs: seq<int>): nat {
    CountTrue(HurdleSeq(co, bs))
  }

  /** An odd number of hurdles, at least three, all of them superhurdles. */
  ghost predicate IsFortress(co: seq<bool>, bs: seq<int>) {
    && HurdleCount(co, bs) >= 3 && HurdleCount(co, bs) % 2 == 1
    && forall k :: 0 <= k < |co| && IsHurdle(co, bs, k) ==> IsSuperhurdle(bs, k)
  }

  /* ---------------- Facts the phases rely on ---------------- */

  /** Every vertex of an unoriented component leaves its mark. */
  lemma {:induction false} MarksHas(cc: seq<int>, co: seq<bool>, v: int)
    requires CcRange(cc, |co|) && 0 <= v < |cc| && cc[v] != -1 && !co[cc[v]]
    ensures cc[v] in Marks(cc, co)
    decreases |cc|
  {
    var n := |cc| - 1;
    var front := cc[..n];
    assert CcRange(front, |co|) by {
      assert forall u :: 0 <= u < |front| ==> front[u] == cc[u];
    }
    if v < n {
      assert front[v] == cc[v];
      MarksHas(front, co, v);
    }
  }

  /** With no unoriented component there is no mark. */
  lemma {:induction false} NoMarks(cc: seq<int>, co: seq<bool>)
    requires CcRange(cc, |co|) && forall k :: 0 <= k < |co| ==> co[k]
    ensures Marks(cc, co) == []
    decreases |cc|
  {
    if cc != [] {
      var front := cc[..|cc| - 1];
      assert CcRange(front, |co|) by {
        assert forall u :: 0 <= u < |front| ==> front[u] == cc[u];
      }
      NoMarks(front, co);
    }
  }

  /** Neighbours are blocks or -1. */
  lemma NeighboursInRange(bs: seq<int>, m: nat, k: int)
    requires forall j :: 0 <= j < |bs| ==> 0 <= bs[j] < m
    ensures -1 <= LeftOf(bs, k) < m && -1 <= RightOf(bs, k) < m
    ensures LeftOf(bs, k) != -1 ==> LeftOf(bs, k) in bs
  {
    var j := LastIndex(bs, k, |bs|);
    assert LeftOf(bs, k) == if j <= 0 then -1 else bs[j - 1];
    if bs != [] {
      var j' := LastIndex(bs, k, |bs| - 1);
      assert RightOf(bs, k) == if j' == -1 then -1 else bs[j' + 1];
    }
  }

  /** The hurdle bits the marking loop gives a record whose count is its
      number of blocks in bs say what the reference definitions say. */
  lemma HurdleBitsMeaning(cs: seq<Component>, bs: seq<int>, first: int, last: int, k: int)
    requires 0 <= k < |cs| && bs != [] && first == bs[0] && last == bs[|bs| - 1] && 0 <= first < |cs|
    requires cs[k].blocks == multiset(bs)[k] && cs[first].blocks == multiset(bs)[first]
    ensures HurdleBits(cs, first, last, k) != 0 <==> IsHurdle(Orients(cs), bs, k)
    ensures HasFlag(HurdleBits(cs, first, last, k), GREATHURDLE) <==> WrapHurdle(bs, k)
  {
  }

  /** The records after the block scan and the marking loop: the hurdle
      flags are the reference hurdles, and the superhurdle test of each
      hurdle is the reference superhurdle test. */
  lemma HurdlePhase(cs0: seq<Component>, cs1: seq<Component>, cs2: seq<Component>,
                    bs: seq<int>, first: int, last: int)
    requires BlockState(cs0, cs1, bs, first, last) && bs != []
    requires |cs2| == |cs1|
    requires forall k :: 0 <= k < |cs1| ==> cs2[k] == cs1[k].(hurdle := HurdleBits(cs1, first, last, k))
    ensures HurdleFlags(cs2) == HurdleSeq(Orients(cs0), bs)
    ensures forall k :: 0 <= k < |cs2| ==> -1 <= cs2[k].left < |cs2|
    ensures AllProtected(cs2) <==>
      forall k :: 0 <= k < |cs0| && IsHurdle(Orients(cs0), bs, k) ==> IsSuperhurdle(bs, k)
  {
    var co := Orients(cs0);
    assert Orients(cs1) == co;
    assert cs1[first] == BlockRecord(cs0[first], bs, first);
    forall k | 0 <= k < |cs0|
      ensures HurdleFlags(cs2)[k] == HurdleSeq(co, bs)[k]
      ensures -1 <= cs2[k].left < |cs2|
      ensures cs2[k].hurdle != 0 ==> (Protected(cs2, k) <==> IsSuperhurdle(bs, k))
    {
      assert cs1[k] == BlockRecord(cs0[k], bs, k);
      HurdleBitsMeaning(cs1, bs, first, last, k);
      NeighboursInRange(bs, |cs0|, k);
      var l := LeftOf(bs, k);
      if 0 <= l < |cs0| {
        assert cs1[l] == BlockRecord(cs0[l], bs, l);
        HurdleBitsMeaning(cs1, bs, first, last, l);
      }
    }
  }

  /** The reset loop before the block scan. */
  function ResetBlocks(cs: seq<Component>): (cs': seq<Component>)
    ensures |cs'| == |cs| && Orients(cs') == Orients(cs)
    ensures forall k :: 0 <= k < |cs| ==>
      cs'[k] == cs[k].(blocks := 0, hurdle := 0, left := -1, right := -1)
  {
    seq(|cs|, k requires 0 <= k < |cs| => cs[k].(blocks := 0, hurdle := 0, left := -1, right := -1))
  }

  /** An unoriented component with a vertex makes a block. */
  lemma SomeBlock(cc: seq<int>, comps: seq<int>, co: seq<bool>, k: int)
    requires CcRange(cc, |co|) && |comps| == |co| && 0 <= k < |co| && !co[k]
    requires forall k :: 0 <= k < |comps| ==> 0 <= comps[k] < |cc| && cc[comps[k]] == k
    ensures Collapse(Marks(cc, co)) != []
  {
    MarksHas(cc, co, comps[k]);
  }

  /** The count and the superhurdle test of the records decide the
      reference fortress. */
  lemma FortressMatch(cs: seq<Component>, co: seq<bool>, bs: seq<int>, h: int)
    requires |co| == |cs| && HurdleFlags(cs) == HurdleSeq(co, bs) && h == CountTrue(HurdleFlags(cs))
    requires AllProtected(cs) <==> forall k :: 0 <= k < |co| && IsHurdle(co, bs, k) ==> IsSuperhurdle(bs, k)
    ensures h == HurdleCount(co, bs)
    ensures IsFortress(co, bs) <==> h >= 3 && h % 2 == 1 && AllProtected(cs)
  {
  }

  /** Reset, block scan and hurdle marking over records that make at least
      one block. */
  method ScanAndMark(cc: seq<int>, cs: seq<Component>) returns (cs2: seq<Component>, h: int)
    requires CcRange(cc, |cs|) && Collapse(Marks(cc, Orients(cs))) != []
    ensures var co := Orients(cs); var bs := Collapse(Marks(cc, co));
      && HurdleFlags(cs2) == HurdleSeq(co, bs) && h == CountTrue(HurdleFlags(cs2))
      && (forall k :: 0 <= k < |cs2| ==> -1 <= cs2[k].left < |cs2|)
      && (AllProtected(cs2) <==> forall k :: 0 <= k < |co| && IsHurdle(co, bs, k) ==> IsSuperhurdle(bs, k))
  {
    var cs0 := ResetBlocks(cs);
    var cs1, first, last := BlockScan(cc, cs0);
    cs2, h := MarkHurdles(cs1, first, last);
    HurdlePhase(cs0, cs1, cs2, Collapse(Marks(cc, Orients(cs))), first, last);
  }

  /** The last four phases: reset the records, scan the blocks, mark the
      hurdles and, with three hurdles or more, test for superhurdles. Every
      component has a vertex, found through comps. */
  method HurdlesOf(cc: seq<int>, comps: seq<int>, cs: seq<Component>) returns (h: int, f: int, cs': seq<Component>)
    requires CcRange(cc, |cs|) && |comps| == |cs|
    requires forall k :: 0 <= k < |comps| ==> 0 <= comps[k] < |cc| && cc[comps[k]] == k
    ensures |cs'| == |cs|
    ensures var co := Orients(cs); var bs := Collapse(Marks(cc, co));
      h == HurdleCount(co, bs) && f == (if IsFortress(co, bs) then 1 else 0)
  {
    ghost var co := Orients(cs);
    ghost var bs := Collapse(Marks(cc, co));
    if CountUnoriented(cs) == 0 {
      NoMarks(cc, co);
      assert HurdleSeq(co, bs) == seq(|cs|, _ => false);
      return 0, 0, cs;
    }
    ghost var k :| 0 <= k < |cs| && !cs[k].oriented;
    SomeBlock(cc, comps, co, k);
    var cs2;
    cs2, h := ScanAndMark(cc, cs);
    FortressMatch(cs2, co, bs, h);
    if h < 3 {
      return h, 0, cs2;
    }
    cs', f := Superhurdles(cs2, h);
  }

  /** num_hurdles_and_fortress: the components of the breakpoint graph,
      their orientation, and then the number of hurdles and whether they
      form a fortress. */
  method NumHurdlesAndFortress(grey: seq<int>, lbl: seq<int>, cc0: seq<int>)
    returns (h: int, f: int, comps: seq<int>, cc: seq<int>, cs: seq<Component>)
    requires GreyGraph(grey) && Labelled(grey, lbl) && |cc0| == |grey|
    ensures |cc| == |grey| && |cs| == |comps| && CcRange(cc, |cs|)
    ensures forall v :: 0 <= v < |grey| ==> (cc[v] == -1 <==> grey[v] == -1)
    ensures forall v :: 0 <= v < |grey| && grey[v] != -1 ==> CycleRoot(lbl, lbl[v]) && cc[v] == cc[lbl[v]]
    ensures forall k :: 0 <= k < |cs| ==> cs[k].index == comps[k] && CycleRoot(lbl, comps[k]) && cc[comps[k]] == k
    ensures InterleavingClasses(grey, lbl, cc) && Numbered(cc) && |cs| == EndsBelow(cc, |cc|)
    ensures var co := CompOrientation(grey, cc, |cs|); var bs := Collapse(Marks(cc, co));
      h == HurdleCount(co, bs) && f == (if IsFortress(co, bs) then 1 else 0)
  {
    var parent;
    comps, cc, parent := ConnectedComponent(grey, lbl, cc0);
    h, f, cs := ComponentHurdles(grey, comps, cc);
  }

  /** The part of `num_hurdles_and_fortress` after the components are
      labelled: one record per component, its orientation, then the hurdle
      count and the fortress test. */
  method ComponentHurdles(grey: seq<int>, comps: seq<int>, cc: seq<int>)
    returns (h: int, f: int, cs: seq<Component>)
    requires GreyGraph(grey) && |cc| == |grey|
    requires forall v :: 0 <= v < |grey| ==> (cc[v] == -1 <==> grey[v] == -1)
    requires forall v :: 0 <= v < |grey| && grey[v] != -1 ==> 0 <= cc[v] < |comps|
    requires forall k :: 0 <= k < |comps| ==> 0 <= comps[k] < |cc| && cc[comps[k]] == k
    ensures |cs| == |comps| && CcRange(cc, |cs|)
    ensures forall k :: 0 <= k < |cs| ==> cs[k].index == comps[k]
    ensures var co := CompOrientation(grey, cc, |cs|); var bs := Collapse(Marks(cc, co));
      h == HurdleCount(co, bs) && f == (if IsFortress(co, bs) then 1 else 0)
  {
    cs := seq(|comps|, k requires 0 <= k < |comps| => NoComponent.(index := comps[k]));
    if |comps| == 0 {
      assert CompOrientation(grey, cc, 0) == [];
      return 0, 0, cs;
    }
    var oriented := Orientation(grey);
    var cs1 := ComponentOrientation(oriented, cc, cs);
    OrientsMatch(grey, oriented, cc, cs1);
    var cs2;
    h, f, cs2 := HurdlesOf(cc, comps, cs1);
  }

  /** After the component-orientation loops the records carry the
      reference orientation. */
  lemma OrientsMatch(grey: seq<int>, oriented: seq<bool>, cc: seq<int>, cs: seq<Component>)
    requires |oriented| == |cc| == |grey|
    requires forall v :: 0 <= v < |grey| ==> (oriented[v] <==> OrientedAt(grey, v))
    requires forall k :: 0 <= k < |cs| ==> cs[k].oriented == HasOriented(oriented, cc, k, |cc|)
    ensures Orients(cs) == CompOrientation(grey, cc, |cs|)
  {
    var co := CompOrientation(grey, cc, |cs|);
    forall k | 0 <= k < |cs|
      ensures Orients(cs)[k] == co[k]
    {
      assert co[k] <==> HasOriented(oriented, cc, k, |cc|);
    }
  }
}
