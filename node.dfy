/**
 * Nodes of the Huffman tree (the `Node` struct built by `create_node` in
 * src/encode.c). A node owns its children exclusively, so the tree is a value:
 * a leaf carries a byte and its count and has no children, an internal node
 * carries a count and exactly two children.
 */
module HuffmanNode {

  /** Size of the byte alphabet and of every fixed table in the encoder. */
  const NSYMBOLS: nat := 256

  /** The `symbol` stored in every internal node (the `dummy` of build_tree). */
  const INTERNAL_SYMBOL: int := -1

  datatype Node =
    | Leaf(sym: int, count: nat)
    | Internal(count: nat, left: Node, right: Node)
  {
    /** The node's `symbol` field: the byte of a leaf, the sentinel for an internal node. */
    function Symbol(): int {
      if Leaf? then sym else INTERNAL_SYMBOL
    }
  }

  /** The leaves of `t` from left to right. */
  function Leaves(t: Node): (ls: seq<Node>)
    ensures |ls| >= 1
    ensures forall i :: 0 <= i < |ls| ==> ls[i].Leaf?
  {
    match t
    case Leaf(_, _) => [t]
    case Internal(_, l, r) => Leaves(l) + Leaves(r)
  }

  function Max(a: nat, b: nat): nat {
    if a < b then b else a
  }

  /** Number of edges on the longest root-to-leaf path. */
  function Height(t: Node): nat {
    match t
    case Leaf(_, _) => 0
    case Internal(_, l, r) => 1 + Max(Height(l), Height(r))
  }

  /**
   * The invariant of every tree the encoder builds: leaves hold a byte and a
   * positive count, and an internal node's count is the sum of its children's.
   */
  predicate WellFormed(t: Node) {
    match t
    case Leaf(s, c) => 0 <= s < NSYMBOLS && c > 0
    case Internal(c, l, r) => c == l.count + r.count && WellFormed(l) && WellFormed(r)
  }

  predicate AllWellFormed(ws: seq<Node>) {
    forall i :: 0 <= i < |ws| ==> WellFormed(ws[i])
  }

  /** Sum of the counts of a sequence of nodes. */
  function Weight(ws: seq<Node>): nat {
    if ws == [] then 0 else ws[0].count + Weight(ws[1..])
  }

  /** The leaves of a sequence of trees, tree after tree. */
  function LeavesOf(ws: seq<Node>): seq<Node> {
    if ws == [] then [] else Leaves(ws[0]) + LeavesOf(ws[1..])
  }

  /**
   * The internal node `create_node(dummy, node1->count + node2->count, node1, node2)`
   * of one merge step.
   */
  function Merge(node1: Node, node2: Node): (r: Node)
    ensures r.Internal? && r.Symbol() == INTERNAL_SYMBOL
    ensures r.count == node1.count + node2.count
    ensures r.left == node1 && r.right == node2
    ensures Leaves(r) == Leaves(node1) + Leaves(node2)
    ensures Height(r) == 1 + Max(Height(node1), Height(node2))
    ensures WellFormed(r) <==> WellFormed(node1) && WellFormed(node2)
  {
    Internal(node1.count + node2.count, node1, node2)
  }

  lemma {:induction false} WeightConcat(a: seq<Node>, b: seq<Node>)
    ensures Weight(a + b) == Weight(a) + Weight(b)
  {
    if a != [] {
      assert (a + b)[1..] == a[1..] + b;
      WeightConcat(a[1..], b);
    } else {
      assert a + b == b;
    }
  }

  lemma {:induction false} LeavesOfConcat(a: seq<Node>, b: seq<Node>)
    ensures LeavesOf(a + b) == LeavesOf(a) + LeavesOf(b)
  {
    if a != [] {
      assert (a + b)[1..] == a[1..] + b;
      LeavesOfConcat(a[1..], b);
    } else {
      assert a + b == b;
    }
  }

  lemma LeavesOfSingleton(t: Node)
    ensures LeavesOf([t]) == Leaves(t)
    ensures Weight([t]) == t.count
  {
    assert [t][1..] == [];
  }

  /** The working set split around one node: before it, the node itself, after it. */
  lemma WeightAround(a: seq<Node>, t: Node, b: seq<Node>)
    ensures Weight(a + ([t] + b)) == Weight(a) + (t.count + Weight(b))
  {
    WeightConcat(a, [t] + b);
    WeightConcat([t], b);
    LeavesOfSingleton(t);
  }

  lemma LeavesOfAround(a: seq<Node>, t: Node, b: seq<Node>)
    ensures LeavesOf(a + ([t] + b)) == LeavesOf(a) + (Leaves(t) + LeavesOf(b))
  {
    LeavesOfConcat(a, [t] + b);
    LeavesOfConcat([t], b);
    LeavesOfSingleton(t);
  }

  /** A well-formed tree's count is the sum of the counts of its leaves. */
  lemma {:induction false} CountIsLeafWeight(t: Node)
    requires WellFormed(t)
    ensures t.count == Weight(Leaves(t))
  {
    match t
    case Leaf(_, _) =>
      LeavesOfSingleton(t);
    case Internal(_, l, r) =>
      CountIsLeafWeight(l);
      CountIsLeafWeight(r);
      WeightConcat(Leaves(l), Leaves(r));
  }

  /** A tree is shallower than it has leaves: no path is longer than the leaf count minus one. */
  lemma {:induction false} HeightBelowLeafCount(t: Node)
    ensures Height(t) < |Leaves(t)|
  {
    match t
    case Leaf(_, _) =>
    case Internal(_, l, r) =>
      HeightBelowLeafCount(l);
      HeightBelowLeafCount(r);
  }
}
