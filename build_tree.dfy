/**
 * Huffman tree construction (`pop_min` and `build_tree` in src/encode.c).
 *
 * The working set is the array `nodep` whose first `n` entries are live.
 * `pop_min` shifts the tail left after removing an entry and a merged node is
 * written at position `n`, so array position is insertion order and the
 * leftmost minimum is the earliest inserted one. The functions `MinIndex`,
 * `InitialLeaves`, `MergeStep`, `MergeAll` and `TreeOf` state on sequences what
 * the methods `PopMin` and `BuildTree` compute on the array.
 */
module TreeBuilder {
  import opened Wrappers
  import opened HuffmanNode
  import opened SymbolCount

  /**
   * The index `pop_min` selects: a node of minimum count, and the leftmost one
   * among equals (the scan replaces its candidate only on a strictly smaller count).
   */
  function MinIndex(s: seq<Node>): (k: nat)
    requires |s| >= 1
    ensures k < |s|
  {
    if |s| == 1 then 0
    else
      var k := MinIndex(s[..|s| - 1]);
      if s[|s| - 1].count < s[k].count then |s| - 1 else k
  }

  /** `MinIndex` picks a minimum count, and no node left of it has that count. */
  lemma {:induction false} MinIndexIsLeftmostMinimum(s: seq<Node>)
    requires |s| >= 1
    ensures forall j :: 0 <= j < |s| ==> s[MinIndex(s)].count <= s[j].count
    ensures forall j :: 0 <= j < MinIndex(s) ==> s[MinIndex(s)].count < s[j].count
  {
    if |s| > 1 {
      MinIndexIsLeftmostMinimum(s[..|s| - 1]);
    }
  }

  /** `s` without its `k`-th element, the others in their original order. */
  function RemoveAt(s: seq<Node>, k: nat): (r: seq<Node>)
    requires k < |s|
    ensures |r| == |s| - 1
  {
    s[..k] + s[k + 1..]
  }

  /** The scan of `pop_min`: the index of the leftmost minimum-count node of `nodep[..n]`. */
  method ScanMin(nodep: array<Node>, n: nat) returns (argmin: nat)
    requires 1 <= n <= nodep.Length
    ensures argmin == MinIndex(nodep[..n])
  {
    argmin := 0;
    for i := 0 to n
      invariant argmin < n
      invariant argmin == MinIndex(nodep[..if i == 0 then 1 else i])
    {
      assert nodep[..i + 1][..i] == nodep[..i];
      if nodep[i].count < nodep[argmin].count {
        argmin := i;
      }
    }
  }

  /** The shift of `pop_min`: `nodep[i] = nodep[i + 1]` for `argmin <= i < n - 1`. */
  method ShiftOut(nodep: array<Node>, argmin: nat, n: nat)
    requires argmin < n <= nodep.Length
    modifies nodep
    ensures nodep[..n - 1] == RemoveAt(old(nodep[..n]), argmin)
    ensures nodep[n - 1..] == old(nodep[n - 1..])
  {
    for i := argmin to n - 1
      invariant forall j :: 0 <= j < argmin ==> nodep[j] == old(nodep[j])
      invariant forall j :: argmin <= j < i ==> nodep[j] == old(nodep[j + 1])
      invariant forall j :: i <= j < nodep.Length ==> nodep[j] == old(nodep[j])
    {
      nodep[i] := nodep[i + 1];
    }
  }

  /**
   * `pop_min`: returns the leftmost node of minimum count among `nodep[..n]`,
   * closes the gap by shifting the tail left and returns the decremented `n`.
   */
  method PopMin(nodep: array<Node>, n: nat) returns (nodeMin: Node, n': nat)
    requires 1 <= n <= nodep.Length
    modifies nodep
    ensures n' == n - 1
    ensures nodeMin == old(nodep[..n])[MinIndex(old(nodep[..n]))]
    ensures forall j :: 0 <= j < n ==> nodeMin.count <= old(nodep[j]).count
    ensures nodep[..n'] == RemoveAt(old(nodep[..n]), MinIndex(old(nodep[..n])))
    ensures nodep[n'..] == old(nodep[n'..])
  {
    var argmin := ScanMin(nodep, n);
    MinIndexIsLeftmostMinimum(nodep[..n]);
    nodeMin := nodep[argmin];
    ShiftOut(nodep, argmin, n);
    n' := n - 1;
  }

  /**
   * The working set as seeded from the first `i` table entries: one leaf per
   * symbol with a nonzero count, in increasing symbol order.
   */
  function InitialLeaves(counts: seq<nat>, i: nat): (ws: seq<Node>)
    requires i <= |counts|
    ensures |ws| <= i
  {
    if i == 0 then []
    else InitialLeaves(counts, i - 1) + (if counts[i - 1] == 0 then [] else [Leaf(i - 1, counts[i - 1])])
  }

  /** Every node of `ws` is a leaf for a symbol below `i` whose nonzero table entry is the leaf's count. */
  predicate LeavesFromTable(ws: seq<Node>, counts: seq<nat>, i: nat)
    requires i <= |counts|
  {
    forall j :: 0 <= j < |ws| ==> ws[j].Leaf? && 0 <= ws[j].sym < i && ws[j].count == counts[ws[j].sym] > 0
  }

  /** The symbols of `ws` strictly increase from left to right. */
  predicate Ascending(ws: seq<Node>) {
    forall j, k :: 0 <= j < k < |ws| ==> ws[j].Symbol() < ws[k].Symbol()
  }

  /** Every symbol below `i` with a nonzero table entry has its leaf in `ws`. */
  predicate CoversTable(ws: seq<Node>, counts: seq<nat>, i: nat)
    requires i <= |counts|
  {
    forall s :: 0 <= s < i && counts[s] > 0 ==> Leaf(s, counts[s]) in ws
  }

  /**
   * The seeded working set holds exactly one leaf per symbol below `i` with a
   * nonzero count, carrying that count, in strictly increasing symbol order.
   */
  lemma {:induction false} InitialLeavesSpec(counts: seq<nat>, i: nat)
    requires i <= |counts|
    ensures LeavesFromTable(InitialLeaves(counts, i), counts, i)
    ensures Ascending(InitialLeaves(counts, i))
    ensures CoversTable(InitialLeaves(counts, i), counts, i)
  {
    if i > 0 {
      InitialLeavesSpec(counts, i - 1);
      var prev := InitialLeaves(counts, i - 1);
      var tail := if counts[i - 1] == 0 then [] else [Leaf(i - 1, counts[i - 1])];
      assert InitialLeaves(counts, i) == prev + tail;
      AppendFromTable(prev, tail, counts, i);
      AppendAscending(prev, tail, counts, i);
      AppendCovers(prev, tail, counts, i);
    }
  }

  /** Seeding entry `i - 1` keeps every leaf drawn from the table. */
  lemma AppendFromTable(prev: seq<Node>, tail: seq<Node>, counts: seq<nat>, i: nat)
    requires 0 < i <= |counts|
    requires LeavesFromTable(prev, counts, i - 1)
    requires tail == if counts[i - 1] == 0 then [] else [Leaf(i - 1, counts[i - 1])]
    ensures LeavesFromTable(prev + tail, counts, i)
  {
    var ws := prev + tail;
    forall j | 0 <= j < |ws|
      ensures ws[j].Leaf? && 0 <= ws[j].sym < i && ws[j].count == counts[ws[j].sym] > 0
    {
      if j < |prev| {
        assert ws[j] == prev[j];
      }
    }
  }

  /** Seeding entry `i - 1` after the leaves of smaller symbols keeps the order ascending. */
  lemma AppendAscending(prev: seq<Node>, tail: seq<Node>, counts: seq<nat>, i: nat)
    requires 0 < i <= |counts|
    requires LeavesFromTable(prev, counts, i - 1) && Ascending(prev)
    requires tail == if counts[i - 1] == 0 then [] else [Leaf(i - 1, counts[i - 1])]
    ensures Ascending(prev + tail)
  {
    var ws := prev + tail;
    forall j, k | 0 <= j < k < |ws|
      ensures ws[j].Symbol() < ws[k].Symbol()
    {
      if k < |prev| {
        assert ws[j] == prev[j] && ws[k] == prev[k];
      } else {
        assert ws[j] == prev[j];
      }
    }
  }

  /** Seeding entry `i - 1` covers every nonzero entry below `i`. */
  lemma AppendCovers(prev: seq<Node>, tail: seq<Node>, counts: seq<nat>, i: nat)
    requires 0 < i <= |counts|
    requires CoversTable(prev, counts, i - 1)
    requires tail == if counts[i - 1] == 0 then [] else [Leaf(i - 1, counts[i - 1])]
    ensures CoversTable(prev + tail, counts, i)
  {
    var ws := prev + tail;
    forall s | 0 <= s < i && counts[s] > 0
      ensures Leaf(s, counts[s]) in ws
    {
      if s < i - 1 {
        assert Leaf(s, counts[s]) in prev;
      } else {
        assert ws[|ws| - 1] == Leaf(s, counts[s]);
      }
    }
  }

  /** One iteration of build_tree's merge loop: pop twice, append the merged node. */
  function MergeStep(ws: seq<Node>): (ws': seq<Node>)
    requires |ws| >= 2
    ensures |ws'| == |ws| - 1
  {
    var k1 := MinIndex(ws);
    var rest := RemoveAt(ws, k1);
    var k2 := MinIndex(rest);
    RemoveAt(rest, k2) + [Merge(ws[k1], rest[k2])]
  }

  /** The merge loop: runs while at least two nodes remain, leaving zero or one. */
  function MergeAll(ws: seq<Node>): (ws': seq<Node>)
    ensures |ws'| == if ws == [] then 0 else 1
    decreases |ws|
  {
    if |ws| < 2 then ws else MergeAll(MergeStep(ws))
  }

  /** The tree build_tree returns for a frequency table; None stands for NULL. */
  function TreeOf(counts: seq<nat>): (r: Option<Node>)
    requires |counts| == NSYMBOLS
    ensures r.None? <==> InitialLeaves(counts, |counts|) == []
    ensures r.Some? ==> MergeAll(InitialLeaves(counts, |counts|)) == [r.value]
  {
    var ws := MergeAll(InitialLeaves(counts, |counts|));
    if ws == [] then None else Some(ws[0])
  }

  /** The symbols whose table entry is nonzero. */
  function NonzeroSymbols(counts: seq<nat>, i: nat): set<int>
    requires i <= |counts|
  {
    set s | 0 <= s < i && counts[s] > 0
  }

  /** The first loop of `build_tree`: `nodep[n++] = create_node(i, symbol_count[i], NULL, NULL)` per nonzero entry. */
  method SeedLeaves(symbolCount: array<nat>, nodep: array<Node>) returns (n: nat)
    requires symbolCount.Length == NSYMBOLS == nodep.Length
    modifies nodep
    ensures n <= NSYMBOLS
    ensures nodep[..n] == InitialLeaves(symbolCount[..], symbolCount.Length)
  {
    n := 0;
    for i := 0 to NSYMBOLS
      invariant n <= i
      invariant nodep[..n] == InitialLeaves(symbolCount[..], i)
    {
      if symbolCount[i] != 0 {
        nodep[n] := Leaf(i, symbolCount[i]);
        n := n + 1;
      }
    }
  }

  /**
   * One iteration of build_tree's merge loop: pop the two nodes of least
   * count, write their merge at the end of the working set.
   */
  method MergeTwo(nodep: array<Node>, n: nat) returns (n': nat)
    requires 2 <= n <= nodep.Length
    modifies nodep
    ensures n' == n - 1
    ensures nodep[..n'] == MergeStep(old(nodep[..n]))
  {
    ghost var ws := nodep[..n];
    ghost var rest := RemoveAt(ws, MinIndex(ws));
    var node1, node2;
    var m: nat;
    node1, m := PopMin(nodep, n);
    assert nodep[..m] == rest;
    node2, m := PopMin(nodep, m);
    ghost var kept := nodep[..m];
    var newnode := Merge(node1, node2);
    nodep[m] := newnode;
    assert nodep[..m + 1] == kept + [newnode];
    n' := m + 1;
  }

  /** `build_tree` over the table `symbolCount`. */
  method BuildTree(symbolCount: array<nat>) returns (root: Option<Node>)
    requires symbolCount.Length == NSYMBOLS
    ensures root == TreeOf(symbolCount[..])
  {
    var nodep := new Node[NSYMBOLS];
    var n: nat := SeedLeaves(symbolCount, nodep);
    while n >= 2
      invariant nodep.Length == NSYMBOLS
      invariant n <= NSYMBOLS
      invariant MergeAll(nodep[..n]) == MergeAll(InitialLeaves(symbolCount[..], symbolCount.Length))
      decreases n
    {
      n := MergeTwo(nodep, n);
    }
    root := if n == 0 then None else Some(nodep[0]);
  }

  /** A sequence is its prefix before `k`, its `k`-th element and its suffix after `k`. */
  lemma SplitAt(ws: seq<Node>, k: nat)
    requires k < |ws|
    ensures ws == ws[..k] + ([ws[k]] + ws[k + 1..])
  {
  }

  /** Taking the `k`-th node out of a working set takes out its count. */
  lemma RemoveAtWeight(ws: seq<Node>, k: nat)
    requires k < |ws|
    ensures Weight(ws) == ws[k].count + Weight(RemoveAt(ws, k))
  {
    SplitAt(ws, k);
    WeightAround(ws[..k], ws[k], ws[k + 1..]);
    WeightConcat(ws[..k], ws[k + 1..]);
  }

  /** Taking the `k`-th node out of a working set takes out its leaves. */
  lemma RemoveAtLeaves(ws: seq<Node>, k: nat)
    requires k < |ws|
    ensures multiset(LeavesOf(ws)) == multiset(Leaves(ws[k])) + multiset(LeavesOf(RemoveAt(ws, k)))
  {
    SplitAt(ws, k);
    LeavesOfAround(ws[..k], ws[k], ws[k + 1..]);
    LeavesOfConcat(ws[..k], ws[k + 1..]);
    MultisetConcat3(LeavesOf(ws[..k]), Leaves(ws[k]), LeavesOf(ws[k + 1..]));
  }

  lemma MultisetRegroup(w: seq<Node>, a: seq<Node>, r: seq<Node>, b: seq<Node>, k: seq<Node>)
    requires multiset(w) == multiset(a) + multiset(r)
    requires multiset(r) == multiset(b) + multiset(k)
    ensures multiset(k + (a + b)) == multiset(w)
  {
  }

  lemma MultisetConcat3(p: seq<Node>, q: seq<Node>, r: seq<Node>)
    ensures multiset(p + (q + r)) == multiset(q) + multiset(p + r)
  {
  }

  /** A merge step keeps the total count of the working set. */
  lemma MergeStepWeight(ws: seq<Node>)
    requires |ws| >= 2
    ensures Weight(MergeStep(ws)) == Weight(ws)
  {
    var k1 := MinIndex(ws);
    var rest := RemoveAt(ws, k1);
    var k2 := MinIndex(rest);
    var kept := RemoveAt(rest, k2);
    var merged := Merge(ws[k1], rest[k2]);
    assert Weight(MergeStep(ws)) == Weight(kept) + merged.count by {
      assert MergeStep(ws) == kept + [merged];
      WeightConcat(kept, [merged]);
      LeavesOfSingleton(merged);
    }
    RemoveAtWeight(ws, k1);
    RemoveAtWeight(rest, k2);
  }

  /** A merge step keeps the multiset of leaves of the working set. */
  lemma MergeStepLeaves(ws: seq<Node>)
    requires |ws| >= 2
    ensures multiset(LeavesOf(MergeStep(ws))) == multiset(LeavesOf(ws))
  {
    var k1 := MinIndex(ws);
    var rest := RemoveAt(ws, k1);
    var k2 := MinIndex(rest);
    var kept := RemoveAt(rest, k2);
    var merged := Merge(ws[k1], rest[k2]);
    assert LeavesOf(MergeStep(ws)) == LeavesOf(kept) + (Leaves(ws[k1]) + Leaves(rest[k2])) by {
      assert MergeStep(ws) == kept + [merged];
      LeavesOfConcat(kept, [merged]);
      LeavesOfSingleton(merged);
    }
    RemoveAtLeaves(ws, k1);
    RemoveAtLeaves(rest, k2);
    MultisetRegroup(LeavesOf(ws), Leaves(ws[k1]), LeavesOf(rest), Leaves(rest[k2]), LeavesOf(kept));
  }

  /**
   * A merge step appends one internal node (symbol -1) whose left child is
   * the leftmost least-count node, whose right child is the leftmost
   * least-count node of the others, and whose count is theirs added; all
   * other nodes stay.
   */
  lemma MergeStepMergesTwoLeast(ws: seq<Node>)
    requires |ws| >= 2
    ensures var k1, m := MinIndex(ws), MergeStep(ws)[|ws| - 2];
      m.Internal? && m.Symbol() == INTERNAL_SYMBOL &&
      m.left == ws[k1] && m.count == m.left.count + m.right.count &&
      (forall j :: 0 <= j < |ws| ==> m.left.count <= ws[j].count) &&
      (forall j :: 0 <= j < |ws| && j != k1 ==> m.right.count <= ws[j].count)
    ensures var rest, m := RemoveAt(ws, MinIndex(ws)), MergeStep(ws)[|ws| - 2];
      m.right == rest[MinIndex(rest)] &&
      forall j :: 0 <= j < MinIndex(rest) ==> m.right.count < rest[j].count
    ensures var m := MergeStep(ws)[|ws| - 2];
      multiset(MergeStep(ws)[..|ws| - 2]) + multiset{m.left, m.right} == multiset(ws)
  {
    MergeStepChildren(ws);
    MergeStepRightLeftmost(ws);
    MergeStepKeepsOthers(ws);
  }

  /** The children of the node a merge step appends are the two nodes `pop_min` returns. */
  lemma MergeStepChildren(ws: seq<Node>)
    requires |ws| >= 2
    ensures var k1, m := MinIndex(ws), MergeStep(ws)[|ws| - 2];
      m.Internal? && m.Symbol() == INTERNAL_SYMBOL &&
      m.left == ws[k1] && m.count == m.left.count + m.right.count &&
      (forall j :: 0 <= j < |ws| ==> m.left.count <= ws[j].count) &&
      (forall j :: 0 <= j < |ws| && j != k1 ==> m.right.count <= ws[j].count)
  {
    var k1 := MinIndex(ws);
    var rest := RemoveAt(ws, k1);
    var k2 := MinIndex(rest);
    var m := Merge(ws[k1], rest[k2]);
    assert MergeStep(ws)[|ws| - 2] == m by {
      assert MergeStep(ws) == RemoveAt(rest, k2) + [m];
    }
    assert forall j :: 0 <= j < |ws| ==> m.left.count <= ws[j].count by {
      MinIndexIsLeftmostMinimum(ws);
    }
    assert forall j :: 0 <= j < |ws| && j != k1 ==> m.right.count <= ws[j].count by {
      SecondMinimum(ws, k1);
    }
  }

  /** The right child is the leftmost least-count node of the others, as the second `pop_min` picks. */
  lemma MergeStepRightLeftmost(ws: seq<Node>)
    requires |ws| >= 2
    ensures var rest, m := RemoveAt(ws, MinIndex(ws)), MergeStep(ws)[|ws| - 2];
      m.right == rest[MinIndex(rest)] &&
      forall j :: 0 <= j < MinIndex(rest) ==> m.right.count < rest[j].count
  {
    var rest := RemoveAt(ws, MinIndex(ws));
    assert MergeStep(ws)[|ws| - 2].right == rest[MinIndex(rest)] by {
      assert MergeStep(ws) == RemoveAt(rest, MinIndex(rest)) + [Merge(ws[MinIndex(ws)], rest[MinIndex(rest)])];
    }
    MinIndexIsLeftmostMinimum(rest);
  }

  /** A merge step keeps every node other than the two it merges. */
  lemma MergeStepKeepsOthers(ws: seq<Node>)
    requires |ws| >= 2
    ensures var m := MergeStep(ws)[|ws| - 2];
      multiset(MergeStep(ws)[..|ws| - 2]) + multiset{m.left, m.right} == multiset(ws)
  {
    var k1 := MinIndex(ws);
    var rest := RemoveAt(ws, k1);
    var k2 := MinIndex(rest);
    var kept := RemoveAt(rest, k2);
    var m := Merge(ws[k1], rest[k2]);
    assert MergeStep(ws)[|ws| - 2] == m && MergeStep(ws)[..|ws| - 2] == kept by {
      assert MergeStep(ws) == kept + [m];
    }
    assert multiset(kept) + multiset{m.left, m.right} == multiset(ws) by {
      RemoveAtMultiset(ws, k1);
      RemoveAtMultiset(rest, k2);
      MultisetTakeTwo(ws, rest, kept, ws[k1], rest[k2]);
    }
  }

  lemma MultisetTakeTwo(w: seq<Node>, r: seq<Node>, k: seq<Node>, a: Node, b: Node)
    requires multiset(r) + multiset{a} == multiset(w)
    requires multiset(k) + multiset{b} == multiset(r)
    ensures multiset(k) + multiset{a, b} == multiset(w)
  {
  }

  /** The least count left after taking out entry `k1` is at most every other entry's count. */
  lemma SecondMinimum(ws: seq<Node>, k1: nat)
    requires k1 < |ws| && |ws| >= 2
    ensures var rest := RemoveAt(ws, k1);
      forall j :: 0 <= j < |ws| && j != k1 ==> rest[MinIndex(rest)].count <= ws[j].count
  {
    var rest := RemoveAt(ws, k1);
    MinIndexIsLeftmostMinimum(rest);
    forall j | 0 <= j < |ws| && j != k1
      ensures rest[MinIndex(rest)].count <= ws[j].count
    {
      assert ws[j] == rest[if j < k1 then j else j - 1];
    }
  }

  /** Taking the `k`-th element out of a sequence takes one copy of it out of its multiset. */
  lemma RemoveAtMultiset(s: seq<Node>, k: nat)
    requires k < |s|
    ensures multiset(RemoveAt(s, k)) + multiset{s[k]} == multiset(s)
  {
    SplitAt(s, k);
    MultisetConcat3(s[..k], [s[k]], s[k + 1..]);
  }

  /** A merge step keeps every tree of the working set well formed. */
  lemma MergeStepWellFormed(ws: seq<Node>)
    requires |ws| >= 2
    requires AllWellFormed(ws)
    ensures AllWellFormed(MergeStep(ws))
  {
    var k1 := MinIndex(ws);
    var rest := RemoveAt(ws, k1);
    var k2 := MinIndex(rest);
    var kept := RemoveAt(rest, k2);
    var merged := Merge(ws[k1], rest[k2]);
    assert MergeStep(ws) == kept + [merged];
    assert AllWellFormed(rest) by {
      assert forall j :: 0 <= j < |rest| ==> rest[j] == (if j < k1 then ws[j] else ws[j + 1]);
    }
    assert AllWellFormed(kept) by {
      assert forall j :: 0 <= j < |kept| ==> kept[j] == (if j < k2 then rest[j] else rest[j + 1]);
    }
    assert WellFormed(merged);
  }

  /**
   * The merge loop leaves at most one tree; it keeps the total count, the
   * multiset of leaves and well-formedness of the working set.
   */
  lemma MergeAllPreserves(ws: seq<Node>)
    ensures Weight(MergeAll(ws)) == Weight(ws)
    ensures multiset(LeavesOf(MergeAll(ws))) == multiset(LeavesOf(ws))
    ensures AllWellFormed(ws) ==> AllWellFormed(MergeAll(ws))
  {
    MergeAllWeight(ws);
    MergeAllLeaves(ws);
    if AllWellFormed(ws) {
      MergeAllWellFormed(ws);
    }
  }

  lemma {:induction false} MergeAllWeight(ws: seq<Node>)
    ensures Weight(MergeAll(ws)) == Weight(ws)
    decreases |ws|
  {
    if |ws| >= 2 {
      MergeStepWeight(ws);
      MergeAllWeight(MergeStep(ws));
    }
  }

  lemma {:induction false} MergeAllLeaves(ws: seq<Node>)
    ensures multiset(LeavesOf(MergeAll(ws))) == multiset(LeavesOf(ws))
    decreases |ws|
  {
    if |ws| >= 2 {
      MergeStepLeaves(ws);
      MergeAllLeaves(MergeStep(ws));
    }
  }

  lemma {:induction false} MergeAllWellFormed(ws: seq<Node>)
    requires AllWellFormed(ws)
    ensures AllWellFormed(MergeAll(ws))
    decreases |ws|
  {
    if |ws| >= 2 {
      MergeStepWellFormed(ws);
      MergeAllWellFormed(MergeStep(ws));
    }
  }

  /** The seeded working set weighs as much as the table's entries add up to. */
  lemma {:induction false} InitialLeavesWeight(counts: seq<nat>, i: nat)
    requires i <= |counts|
    ensures Weight(InitialLeaves(counts, i)) == Sum(counts[..i])
  {
    if i > 0 {
      var prev := InitialLeaves(counts, i - 1);
      var tail := if counts[i - 1] == 0 then [] else [Leaf(i - 1, counts[i - 1])];
      assert Weight(InitialLeaves(counts, i)) == Weight(prev) + counts[i - 1] by {
        assert InitialLeaves(counts, i) == prev + tail;
        WeightConcat(prev, tail);
        SeededTailWeight(counts, i);
      }
      InitialLeavesWeight(counts, i - 1);
      SumPrefixStep(counts, i);
    }
  }

  /** The leaf seeded for entry `i - 1`, if any, weighs that entry. */
  lemma SeededTailWeight(counts: seq<nat>, i: nat)
    requires 0 < i <= |counts|
    ensures Weight(if counts[i - 1] == 0 then [] else [Leaf(i - 1, counts[i - 1])]) == counts[i - 1]
  {
    if counts[i - 1] != 0 {
      LeavesOfSingleton(Leaf(i - 1, counts[i - 1]));
    }
  }

  lemma SumPrefixStep(counts: seq<nat>, i: nat)
    requires 0 < i <= |counts|
    ensures Sum(counts[..i]) == Sum(counts[..i - 1]) + counts[i - 1]
  {
    assert counts[..i][..i - 1] == counts[..i - 1];
  }

  /** The seeded working set has one leaf per nonzero entry. */
  lemma {:induction false} InitialLeavesCount(counts: seq<nat>, i: nat)
    requires i <= |counts|
    ensures |InitialLeaves(counts, i)| == |NonzeroSymbols(counts, i)|
  {
    if i > 0 {
      InitialLeavesCount(counts, i - 1);
      if counts[i - 1] == 0 {
        assert NonzeroSymbols(counts, i) == NonzeroSymbols(counts, i - 1);
      } else {
        assert NonzeroSymbols(counts, i) == NonzeroSymbols(counts, i - 1) + {i - 1};
      }
    } else {
      assert NonzeroSymbols(counts, 0) == {};
    }
  }

  /** build_tree returns NULL exactly when every entry of the table is zero. */
  lemma TreeOfNone(counts: seq<nat>)
    requires |counts| == NSYMBOLS
    ensures TreeOf(counts).None? <==> forall s :: 0 <= s < NSYMBOLS ==> counts[s] == 0
  {
    InitialLeavesSpec(counts, |counts|);
    var ws := InitialLeaves(counts, |counts|);
    if ws != [] {
      assert counts[ws[0].sym] > 0;
    }
  }

  /**
   * The tree built from a table is well formed, its count is the sum of the
   * table, and it fits the 256-entry path buffer of the traversal.
   */
  lemma TreeOfShape(counts: seq<nat>, root: Node)
    requires |counts| == NSYMBOLS
    requires TreeOf(counts) == Some(root)
    ensures WellFormed(root)
    ensures root.count == Sum(counts)
    ensures Height(root) < NSYMBOLS
  {
    TreeOfWellFormed(counts, root);
    TreeOfCount(counts, root);
    TreeOfHeight(counts, root);
  }

  /** The built tree is well formed. */
  lemma TreeOfWellFormed(counts: seq<nat>, root: Node)
    requires |counts| == NSYMBOLS
    requires TreeOf(counts) == Some(root)
    ensures WellFormed(root)
  {
    var init := InitialLeaves(counts, |counts|);
    InitialLeavesWellFormed(counts, |counts|);
    MergeAllWellFormed(init);
    assert WellFormed(MergeAll(init)[0]);
  }

  /** The root's count is the sum of the table. */
  lemma TreeOfCount(counts: seq<nat>, root: Node)
    requires |counts| == NSYMBOLS
    requires TreeOf(counts) == Some(root)
    ensures root.count == Sum(counts)
  {
    var init := InitialLeaves(counts, |counts|);
    assert root.count == Weight(init) by {
        MergeAllWeight(init);
      LeavesOfSingleton(root);
    }
    assert Weight(init) == Sum(counts) by {
      InitialLeavesWeight(counts, |counts|);
      assert counts[..|counts|] == counts;
    }
  }

  /** The built tree is shallower than the 256-entry path buffer of the traversal. */
  lemma TreeOfHeight(counts: seq<nat>, root: Node)
    requires |counts| == NSYMBOLS
    requires TreeOf(counts) == Some(root)
    ensures Height(root) < NSYMBOLS
  {
    var init := InitialLeaves(counts, |counts|);
    TreeOfLeafMultiset(counts, root);
    assert |Leaves(root)| == |init| by {
      assert |multiset(Leaves(root))| == |multiset(init)|;
    }
    HeightBelowLeafCount(root);
  }

  /** Every seeded leaf is a well-formed tree. */
  lemma InitialLeavesWellFormed(counts: seq<nat>, i: nat)
    requires i <= |counts| == NSYMBOLS
    ensures AllWellFormed(InitialLeaves(counts, i))
  {
    InitialLeavesSpec(counts, i);
  }

  /** The leaves of the built tree are the seeded leaves, in some order. */
  lemma TreeOfLeafMultiset(counts: seq<nat>, root: Node)
    requires |counts| == NSYMBOLS
    requires TreeOf(counts) == Some(root)
    ensures multiset(Leaves(root)) == multiset(InitialLeaves(counts, NSYMBOLS))
  {
    var init := InitialLeaves(counts, |counts|);
    MergeAllLeaves(init);
    LeavesOfSingleton(root);
    InitialLeavesSpec(counts, |counts|);
    InitialLeavesAreTheirLeaves(init);
  }

  /**
   * The built tree has one leaf per nonzero entry of the table, carrying that
   * entry's symbol and count, and no other leaves.
   */
  lemma TreeOfLeaves(counts: seq<nat>, root: Node)
    requires |counts| == NSYMBOLS
    requires TreeOf(counts) == Some(root)
    ensures |Leaves(root)| == |NonzeroSymbols(counts, NSYMBOLS)|
    ensures forall l :: l in Leaves(root) ==> l.Leaf? && 0 <= l.sym < NSYMBOLS && l.count == counts[l.sym] > 0
    ensures forall s :: 0 <= s < NSYMBOLS && counts[s] > 0 ==> Leaf(s, counts[s]) in Leaves(root)
  {
    var init := InitialLeaves(counts, |counts|);
    TreeOfLeafMultiset(counts, root);
    InitialLeavesSpec(counts, |counts|);
    assert |Leaves(root)| == |NonzeroSymbols(counts, NSYMBOLS)| by {
      InitialLeavesCount(counts, |counts|);
      assert |multiset(Leaves(root))| == |multiset(init)|;
    }
    forall l | l in Leaves(root)
      ensures l.Leaf? && 0 <= l.sym < NSYMBOLS && l.count == counts[l.sym] > 0
    {
      assert l in multiset(init);
    }
    forall s | 0 <= s < NSYMBOLS && counts[s] > 0
      ensures Leaf(s, counts[s]) in Leaves(root)
    {
      assert Leaf(s, counts[s]) in multiset(init);
    }
  }

  /** No two leaves of the built tree carry the same symbol. */
  lemma TreeOfLeavesDistinct(counts: seq<nat>, root: Node)
    requires |counts| == NSYMBOLS
    requires TreeOf(counts) == Some(root)
    ensures forall i, j :: 0 <= i < j < |Leaves(root)| ==> Leaves(root)[i].sym != Leaves(root)[j].sym
  {
    forall i, j | 0 <= i < j < |Leaves(root)|
      ensures Leaves(root)[i].sym != Leaves(root)[j].sym
    {
      DistinctLeafPair(counts, root, i, j);
    }
  }

  lemma DistinctLeafPair(counts: seq<nat>, root: Node, i: nat, j: nat)
    requires |counts| == NSYMBOLS
    requires TreeOf(counts) == Some(root)
    requires i < j < |Leaves(root)|
    ensures Leaves(root)[i].sym != Leaves(root)[j].sym
  {
    var ls, init := Leaves(root), InitialLeaves(counts, |counts|);
    if ls[i].sym == ls[j].sym {
      assert ls[i] == ls[j] by {
        TreeOfLeaves(counts, root);
        assert ls[i] in ls && ls[j] in ls;
      }
      assert multiset(init)[ls[i]] <= 1 by {
        InitialLeavesSpec(counts, |counts|);
        AscendingAtMostOnce(init, ls[i]);
      }
      RepeatedElement(ls, i, j);
      TreeOfLeafMultiset(counts, root);
      assert false;
    }
  }

  /** An element found at two positions occurs at least twice. */
  lemma RepeatedElement(s: seq<Node>, i: nat, j: nat)
    requires i < j < |s| && s[i] == s[j]
    ensures multiset(s)[s[i]] >= 2
  {
    assert s == s[..j] + s[j..];
    assert s[i] in s[..j];
    assert s[j] in s[j..];
  }

  /** In a sequence of leaves with strictly ascending symbols every node occurs at most once. */
  lemma {:induction false} AscendingAtMostOnce(ws: seq<Node>, x: Node)
    requires Ascending(ws)
    ensures multiset(ws)[x] <= 1
  {
    if ws != [] {
      assert ws == [ws[0]] + ws[1..];
      AscendingAtMostOnce(ws[1..], x);
      if x == ws[0] {
        assert x !in ws[1..] by {
          forall k | 0 <= k < |ws[1..]|
            ensures ws[1..][k] != x
          {
            assert ws[1..][k] == ws[k + 1];
          }
        }
      }
    }
  }

  /** A working set of leaves is its own list of leaves. */
  lemma {:induction false} InitialLeavesAreTheirLeaves(ws: seq<Node>)
    requires forall j :: 0 <= j < |ws| ==> ws[j].Leaf?
    ensures LeavesOf(ws) == ws
  {
    if ws != [] {
      InitialLeavesAreTheirLeaves(ws[1..]);
    }
  }

  /** With a single nonzero entry, that symbol's leaf itself is the root. */
  lemma TreeOfSingleSymbol(counts: seq<nat>, s: int)
    requires |counts| == NSYMBOLS
    requires NonzeroSymbols(counts, NSYMBOLS) == {s}
    ensures TreeOf(counts) == Some(Leaf(s, counts[s]))
  {
    var init := InitialLeaves(counts, |counts|);
    assert |init| == 1 by {
      InitialLeavesCount(counts, |counts|);
    }
    assert init[0] == Leaf(s, counts[s]) by {
      InitialLeavesSpec(counts, |counts|);
      assert s in NonzeroSymbols(counts, NSYMBOLS);
      assert Leaf(s, counts[s]) in init;
    }
    assert init == [Leaf(s, counts[s])];
  }

  /** Two nodes merge with the smaller count on the left. */
  lemma MergeUnequalPair()
    ensures MergeAll([Leaf(97, 3), Leaf(98, 1)]) == [Internal(4, Leaf(98, 1), Leaf(97, 3))]
  {
    var ws := [Leaf(97, 3), Leaf(98, 1)];
    assert MinIndex(ws) == 1 by {
      assert ws[..1] == [Leaf(97, 3)];
    }
    assert RemoveAt(ws, 1) == [Leaf(97, 3)];
    assert MergeStep(ws) == [Internal(4, Leaf(98, 1), Leaf(97, 3))];
  }

  /**
   * The strict comparison fixes the shape on ties: of three equal counts the
   * two leftmost merge first, and the merged node, appended at the end, is
   * merged last as the right child.
   */
  lemma MergeEqualCounts()
    ensures MergeAll([Leaf(1, 1), Leaf(2, 1), Leaf(3, 1)]) ==
      [Internal(3, Leaf(3, 1), Internal(2, Leaf(1, 1), Leaf(2, 1)))]
  {
    var us := [Leaf(1, 1), Leaf(2, 1), Leaf(3, 1)];
    var vs := [Leaf(3, 1), Internal(2, Leaf(1, 1), Leaf(2, 1))];
    assert MergeStep(us) == vs by {
      assert MinIndex(us) == 0 by {
        assert us[..2][..1] == [Leaf(1, 1)];
        assert us[..2] == [Leaf(1, 1), Leaf(2, 1)];
      }
      var rest := RemoveAt(us, 0);
      assert rest == [Leaf(2, 1), Leaf(3, 1)];
      assert MinIndex(rest) == 0 by {
        assert rest[..1] == [Leaf(2, 1)];
      }
      assert RemoveAt(rest, 0) == [Leaf(3, 1)];
    }
    assert MergeStep(vs) == [Internal(3, Leaf(3, 1), Internal(2, Leaf(1, 1), Leaf(2, 1)))] by {
      assert MinIndex(vs) == 0 by {
        assert vs[..1] == [Leaf(3, 1)];
      }
      assert RemoveAt(vs, 0) == [Internal(2, Leaf(1, 1), Leaf(2, 1))];
    }
  }
}
