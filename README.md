# Huffman tree construction of the `haffman` encoder

This project models the core of `src/encode.c`. The encoder counts how often each of the 256 byte
values occurs in a file. It builds a Huffman tree from those counts. It then walks the tree and
prints each symbol with the path of `0`s and `1`s that leads to it.

The modules follow the functions of the C file.

- `HuffmanNode` (node.dfy) defines the tree node. A node is either `Leaf(sym, count)` or
  `Internal(count, left, right)`; an internal node reports the dummy symbol -1. The module also
  defines `Merge`, which is `create_node` for an internal node.
- `SymbolCount` (symbol_count.dfy) models `reset_count` and `count_symbols`. The methods work on an
  `array<nat>` of 256 entries, which stands for the static table `symbol_count`. The file being read
  is a byte sequence `input`. The functions `Occurrences` and `Histogram` state what the table should
  hold.
- `TreeBuilder` (build_tree.dfy) models `pop_min` and `build_tree`.
  - The methods `ScanMin`, `ShiftOut`, `PopMin`, `SeedLeaves`, `MergeTwo` and `BuildTree` work in
    place on the array `nodep` and its fill level `n`.
  - The functions `MinIndex`, `RemoveAt`, `InitialLeaves`, `MergeStep`, `MergeAll` and `TreeOf`
    state on sequences what those methods compute. `TreeOf` returns `None` where `build_tree`
    returns NULL.
- `Traverse` (traverse.dfy) models `traverse_tree`.
  - `TraverseTree` is a recursive method over the 256-character path buffer `buf` and its fill
    level `n`.
  - `Codes` is the same walk with the path passed down explicitly. It returns the (symbol, path)
    pairs that the walk prints.
- `Encoder` (encode.dfy) models `encode` as the composition of the above.

Ties in `pop_min` go to the leftmost node, because the scan switches only on a strictly smaller
count. Removal shifts the tail left, and a merged node is appended at the end. So array position is
insertion order, and the tree is fully determined by the table.

## Model

| member | source | states |
|---|---|---|
| HuffmanNode.Merge | src/encode.c:55-60 | `create_node(dummy, c1 + c2, node1, node2)` gives an internal node with symbol -1, count `node1.count + node2.count`, left child `node1` and right child `node2`. Its leaves are the leaves of `node1` followed by those of `node2`, and its height is one more than the larger child's. It is well formed exactly when both children are. |
| HuffmanNode.CountIsLeafWeight | src/encode.c:107 | In a well-formed tree, a node's count is the sum of the counts of its leaves. |
| HuffmanNode.HeightBelowLeafCount | src/encode.c:122 | A tree's height is less than its number of leaves, so its longest path is shorter than the number of leaves. |
| SymbolCount.ResetCount | src/encode.c:49-53 | After the loop, every one of the 256 entries is 0. |
| SymbolCount.CountSymbols | src/encode.c:42-45 | The loop adds to each entry `b` exactly the number of occurrences of byte `b` in the input. No other entry changes. |
| SymbolCount.OccurrencesPositive | src/encode.c:43-44 | A byte's count is positive if and only if the byte occurs in the input. |
| SymbolCount.HistogramSum | src/encode.c:43-44 | The entries of the frequency table add up to the input length. |
| SymbolCount.HistogramZero | src/encode.c:43-44 | Every entry of the table is zero if and only if the input is empty. |
| TreeBuilder.MinIndex | src/encode.c:66-71 | The index chosen by the scan lies within the live part of the working set. |
| TreeBuilder.MinIndexIsLeftmostMinimum | src/encode.c:66-73 | The chosen node's count is at most every live node's count. Every node left of it has a strictly greater count, so ties go to the leftmost node. |
| TreeBuilder.RemoveAt | src/encode.c:77-81 | Removing one entry shortens the working set by exactly one. |
| TreeBuilder.ScanMin | src/encode.c:66-71 | The scan loop returns the leftmost index of least count among the first `n` nodes. |
| TreeBuilder.ShiftOut | src/encode.c:77-79 | The shift loop leaves the first `n - 1` entries equal to the old ones with entry `argmin` removed, in their original order. The rest of the array is unchanged. |
| TreeBuilder.PopMin | src/encode.c:62-84 | `pop_min` returns a node whose count is at most every live node's count, and it is the leftmost such node. It decrements `n`. The new live part is the old one without that node, other nodes in their original order. |
| TreeBuilder.InitialLeaves | src/encode.c:91-97 | The seeding loop puts no more leaves than entries it has scanned. |
| TreeBuilder.InitialLeavesSpec | src/encode.c:91-97 | The seeded working set holds a leaf for every symbol with a nonzero count, carrying that count, and no other nodes. The symbols strictly increase from left to right. |
| TreeBuilder.InitialLeavesCount | src/encode.c:91-97 | The seeded working set has as many nodes as there are symbols with a nonzero count. |
| TreeBuilder.InitialLeavesWeight | src/encode.c:91-97 | The counts of the seeded leaves add up to the sum of the table. |
| TreeBuilder.SeedLeaves | src/encode.c:88-97 | The seeding loop fills `nodep[..n]` with exactly the seeded working set, and `n` is at most 256. |
| TreeBuilder.MergeStep | src/encode.c:100-109 | One iteration of the merge loop shortens the working set by one. |
| TreeBuilder.MergeStepMergesTwoLeast | src/encode.c:101-108 | One iteration appends a single internal node with symbol -1. Its left child is the leftmost least-count node. Its right child is the node the second `pop_min` picks: the leftmost least-count node of the rest, whose count is at most every other node's. Its count is the sum of theirs. Every other node stays in the working set. |
| TreeBuilder.MergeTwo | src/encode.c:100-109 | The loop body in place: two `pop_min` calls, then the merged node written at position `n`. It decrements `n` by one and leaves `nodep[..n]` equal to one merge step of the old working set. |
| TreeBuilder.MergeAll | src/encode.c:100-109 | The merge loop ends with no node when it starts with none, and with exactly one node otherwise. |
| TreeBuilder.MergeStepWeight | src/encode.c:101-108 | A merge step keeps the sum of the working set's counts. |
| TreeBuilder.MergeStepLeaves | src/encode.c:101-108 | A merge step keeps the multiset of leaves in the working set. |
| TreeBuilder.MergeStepWellFormed | src/encode.c:101-108 | A merge step keeps every tree in the working set well formed. |
| TreeBuilder.RemoveAtWeight | src/encode.c:73-81 | Taking a node out of the working set takes its count out of the total. |
| TreeBuilder.RemoveAtLeaves | src/encode.c:73-81 | Taking a node out of the working set takes its leaves out of the multiset of leaves. |
| TreeBuilder.MergeAllPreserves | src/encode.c:100-109 | The whole merge loop keeps the total count, the multiset of leaves and well-formedness. |
| TreeBuilder.BuildTree | src/encode.c:86-113 | `build_tree` on the table returns exactly `TreeOf` of the table's contents. That is `None` (NULL) when the loop leaves no node, and otherwise the single remaining node. |
| TreeBuilder.TreeOf | src/encode.c:86-112 | The result of `build_tree` for a table. It is `None` (NULL) exactly when the seeding loop puts no leaf into the working set. Otherwise it is the single node the merge loop leaves. |
| TreeBuilder.MergeEqualCounts | src/encode.c:66-108 | The tie rule fixes the tree's shape. Of three leaves with equal counts, the two leftmost merge first, and their merged node becomes the right child of the root. |
| TreeBuilder.TreeOfNone | src/encode.c:112 | No tree is built if and only if every entry of the table is zero. |
| TreeBuilder.TreeOfShape | src/encode.c:86-113 | The built tree is well formed: every internal node's count is the sum of its children's, and every leaf has a symbol below 256 and a positive count. Its count is the sum of the table. Its height is below 256. |
| TreeBuilder.TreeOfWellFormed | src/encode.c:95-107 | The built tree is well formed. |
| TreeBuilder.TreeOfCount | src/encode.c:95-107 | The root's count is the sum of all table entries. |
| TreeBuilder.TreeOfHeight | src/encode.c:122-136 | The built tree's height is below 256, the size of the path buffer. |
| TreeBuilder.TreeOfLeafMultiset | src/encode.c:91-109 | The leaves of the built tree are the seeded leaves, in some order. |
| TreeBuilder.TreeOfLeaves | src/encode.c:91-112 | The built tree has one leaf per symbol with a nonzero count. Each leaf carries a symbol with a nonzero entry and that entry as its count, and every such symbol's leaf is present. |
| TreeBuilder.TreeOfLeavesDistinct | src/encode.c:91-112 | No two leaves of the built tree carry the same symbol. |
| TreeBuilder.TreeOfSingleSymbol | src/encode.c:91-112 | With exactly one nonzero entry, that symbol's leaf itself is returned as the root. |
| Traverse.Codes | src/encode.c:120-141 | The walk emits one (symbol, path) pair per leaf of the tree. |
| Traverse.CodesShape | src/encode.c:124-139 | The pairs come in left-to-right leaf order. Each path starts with the path to the subtree and continues with `'0'`s and `'1'`s only. No path is longer than the subtree's height allows. A leaf at the root gets the path it was given, so a lone leaf gets the empty path. |
| Traverse.CodesPrefixFree | src/encode.c:124-139 | No emitted path is a prefix of, or equal to, another one. |
| Traverse.TraverseTree | src/encode.c:120-141 | The in-place walk over the static buffer returns exactly the pairs of `Codes` for the path held in `buf[..n]`. It restores `buf[..n]` on return. It never writes past the buffer when `n` plus the tree's height is below the buffer's size. |
| Encoder.Encode | src/encode.c:195-206 | `encode` returns the tree of the input's frequency table. There is no tree if and only if the input is empty. Otherwise the tree is well formed and its count is the input length. |
| Encoder.EncodeAndTraverse | src/encode.c:120-141 | `traverse_tree` on the root that `encode` returns, over a fresh 256-character buffer, stays within the buffer. It returns the code table `Codes(root, [])`. When no tree is built, the input was empty. |
| Encoder.AaabCodes | src/encode.c:91-139 | For the input "aaab", the frequency table builds the tree that joins b (count 1) on the left with a (count 3) on the right. So b gets the code "0" and a gets the code "1". |
| Encoder.InputCodes | src/encode.c:120-141 | For the tree of an input, the walk from the root gives each distinct input byte exactly one code, and no other symbol. The codes are prefix-free and shorter than 256 characters. |
| Encoder.CodeSymbolsFromInput | src/encode.c:124-131 | Every symbol in the code table is a byte of the input. |
| Encoder.InputBytesHaveCodes | src/encode.c:124-131 | Every byte of the input has an entry in the code table. |

## Left out

- Opening and reading the file, the error message and `exit(1)` when it cannot be opened, and
  `fclose` (src/encode.c:32-36, 47). The file's contents are the byte sequence `input`.
- `main` and its argument check (src/main.c) are I/O glue and are not part of this model.
- `traverse_tree2` (src/encode.c:144-192) draws the tree on a terminal with ANSI cursor movements.
  It is output formatting, not part of the algorithm.
- The `printf` text of `traverse_tree`: the walk returns (symbol, path) pairs instead of printing
  lines. On output the symbol 10 is shown as the two characters `\n`, and other symbols as the
  character itself. The terminating `'\0'` written after the path is modelled; printing it is not.
- The stderr message of `encode` when no tree is built (src/encode.c:201-203).
- `malloc` failure and freeing the tree. The tree has no sharing, so a node is a value.
- SymbolCount.CountSymbols: counts are unbounded `nat`s and do not model the overflow of a C `int`
  past 2^31 - 1 occurrences. Node counts and their sums in `TreeBuilder` are unbounded for the same
  reason.
- The `depth` parameter of `traverse_tree` is never read, and the model drops it.
- The static `symbol_count` table and the static `buf`/`n` of `traverse_tree` are passed to the
  methods as an array parameter, plus a fill level for `buf`. So the model does not capture their
  persistence between calls.
