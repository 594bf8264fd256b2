/**
 * The encoder's entry point (`encode` in src/encode.c): reset the table,
 * count the input, build the tree. The file named by the caller is the byte
 * sequence `input`; the static table is a fresh array of NSYMBOLS counts.
 */
module Encoder {
  import opened Wrappers
  import opened HuffmanNode
  import opened SymbolCount
  import opened TreeBuilder
  import opened Traverse

  /**
   * `encode`: the tree of the input's frequency table. There is no tree
   * exactly when the input is empty; otherwise the tree is well formed and
   * its count is the input length.
   */
  method Encode(input: seq<byte>) returns (root: Option<Node>)
    ensures root == TreeOf(Histogram(input))
    ensures root.None? <==> input == []
    ensures root.Some? ==> WellFormed(root.value) && root.value.count == |input|
  {
    var symbolCount := new nat[NSYMBOLS];
    ResetCount(symbolCount);
    CountSymbols(symbolCount, input);
    assert symbolCount[..] == Histogram(input);
    root := BuildTree(symbolCount);
    TreeOfNone(Histogram(input));
    HistogramZero(input);
    if root.Some? {
      TreeOfShape(Histogram(input), root.value);
      HistogramSum(input);
    }
  }

  /**
   * `encode` followed by `traverse_tree` on the returned root over a fresh
   * 256-character path buffer: the walk stays within the buffer and returns
   * the code table of the input's tree.
   */
  method EncodeAndTraverse(input: seq<byte>) returns (root: Option<Node>, out: seq<Code>)
    ensures root == TreeOf(Histogram(input))
    ensures root.Some? ==> out == Codes(root.value, [])
    ensures root.None? ==> out == [] && input == []
  {
    root := Encode(input);
    out := [];
    if root.Some? {
      TreeOfHeight(Histogram(input), root.value);
      var buf := new char[NSYMBOLS];
      out := TraverseTree(root.value, buf, 0);
      assert buf[..0] == [];
    }
  }

  /**
   * For the input "aaab" the tree joins b (count 1) on the left with a
   * (count 3) on the right, so b gets the code "0" and a the code "1".
   */
  lemma AaabCodes()
    ensures TreeOf(Histogram([97, 97, 97, 98])) == Some(Internal(4, Leaf(98, 1), Leaf(97, 3)))
    ensures Codes(Internal(4, Leaf(98, 1), Leaf(97, 3)), []) == [(98, ['0']), (97, ['1'])]
  {
    var counts := Histogram([97, 97, 97, 98]);
    forall b | 0 <= b < NSYMBOLS
      ensures counts[b] == if b == 97 then 3 else if b == 98 then 1 else 0
    {
      AaabOccurrences(b);
    }
    AaabSeeded(counts);
    MergeUnequalPair();
    assert [] + ['0'] == ['0'] && [] + ['1'] == ['1'];
  }

  /** A table with 3 for 'a', 1 for 'b' and 0 elsewhere seeds the leaf of 'a' and then that of 'b'. */
  lemma AaabSeeded(counts: seq<nat>)
    requires |counts| == NSYMBOLS
    requires forall b :: 0 <= b < NSYMBOLS ==> counts[b] == if b == 97 then 3 else if b == 98 then 1 else 0
    ensures InitialLeaves(counts, |counts|) == [Leaf(97, 3), Leaf(98, 1)]
  {
    var init := InitialLeaves(counts, |counts|);
    InitialLeavesSpec(counts, |counts|);
    assert |init| == 2 by {
      InitialLeavesCount(counts, |counts|);
      assert NonzeroSymbols(counts, NSYMBOLS) == {97, 98};
    }
    assert Leaf(97, 3) in init && Leaf(98, 1) in init;
    assert init[0].Symbol() < init[1].Symbol();
  }

  lemma AaabOccurrences(b: int)
    ensures Occurrences([97, 97, 97, 98], b) == if b == 97 then 3 else if b == 98 then 1 else 0
  {
    var input: seq<byte> := [97, 97, 97, 98];
    assert Occurrences(input[..1], b) == if b == 97 then 1 else 0 by {
      assert input[..1][..0] == [];
    }
    assert Occurrences(input[..2], b) == if b == 97 then 2 else 0 by {
      assert input[..2][..1] == input[..1];
    }
    assert Occurrences(input[..3], b) == if b == 97 then 3 else 0 by {
      assert input[..3][..2] == input[..2];
    }
    assert input[..4][..3] == input[..3] && input[..4] == input;
  }

  /**
   * The code table of an input's tree: one entry per distinct byte of the
   * input, each byte once, and paths that are prefix free and fit the
   * 256-character path buffer.
   */
  lemma InputCodes(input: seq<byte>, root: Node)
    requires TreeOf(Histogram(input)) == Some(root)
    ensures var codes := Codes(root, []);
      (forall i :: 0 <= i < |codes| ==> 0 <= codes[i].0 < NSYMBOLS && codes[i].0 as byte in input) &&
      (forall b: byte :: b in input ==> exists i :: 0 <= i < |codes| && codes[i].0 == b as int) &&
      (forall i, j :: 0 <= i < j < |codes| ==> codes[i].0 != codes[j].0) &&
      (forall i, j :: 0 <= i < |codes| && 0 <= j < |codes| && i != j ==> !(codes[i].1 <= codes[j].1)) &&
      (forall i :: 0 <= i < |codes| ==> |codes[i].1| < NSYMBOLS)
  {
    var counts := Histogram(input);
    var codes := Codes(root, []);
    CodesShape(root, []);
    CodesPrefixFree(root, []);
    TreeOfLeavesDistinct(counts, root);
    CodeSymbolsFromInput(input, root);
    InputBytesHaveCodes(input, root);
    assert forall i :: 0 <= i < |codes| ==> |codes[i].1| < NSYMBOLS by {
      TreeOfHeight(counts, root);
    }
  }

  /** Every symbol of the code table is a byte of the input. */
  lemma CodeSymbolsFromInput(input: seq<byte>, root: Node)
    requires TreeOf(Histogram(input)) == Some(root)
    ensures var codes := Codes(root, []);
      forall i :: 0 <= i < |codes| ==> 0 <= codes[i].0 < NSYMBOLS && codes[i].0 as byte in input
  {
    var codes, ls := Codes(root, []), Leaves(root);
    CodesShape(root, []);
    TreeOfLeaves(Histogram(input), root);
    forall i | 0 <= i < |codes|
      ensures 0 <= codes[i].0 < NSYMBOLS && codes[i].0 as byte in input
    {
      assert ls[i] in ls;
      OccurrencesPositive(input, ls[i].sym as byte);
    }
  }

  /** Every byte of the input has an entry in the code table. */
  lemma InputBytesHaveCodes(input: seq<byte>, root: Node)
    requires TreeOf(Histogram(input)) == Some(root)
    ensures var codes := Codes(root, []);
      forall b: byte :: b in input ==> exists i :: 0 <= i < |codes| && codes[i].0 == b as int
  {
    var counts, codes, ls := Histogram(input), Codes(root, []), Leaves(root);
    CodesShape(root, []);
    TreeOfLeaves(counts, root);
    forall b: byte | b in input
      ensures exists i :: 0 <= i < |codes| && codes[i].0 == b as int
    {
      OccurrencesPositive(input, b);
      var k :| 0 <= k < |ls| && ls[k] == Leaf(b as int, counts[b]);
      assert codes[k].0 == b as int;
    }
  }
}
